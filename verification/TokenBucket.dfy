/** Token buckets over exact arithmetic: what a run of draws can take out of one. */
module TokenBucket {
  import opened Options

  datatype Rule = Rule(capacity: real, refillPerSecond: real)

  /** Finite and not negative, as startup demands of every rule. */
  predicate Usable(rule: Rule) {
    rule.capacity >= 0.0 && rule.refillPerSecond >= 0.0
  }

  datatype Row = Row(tokens: real, updatedAt: real, expiresAt: real)

  datatype Decision = Allowed | Refused(retryAfterSeconds: Option<int>)

  const SHORTEST_BUCKET_LIFETIME_IN_SECONDS := 60.0
  const LONGEST_BUCKET_LIFETIME_IN_SECONDS := 86_400.0

  function Least(x: real, y: real): real {
    if x < y then x else y
  }

  function Greatest(x: real, y: real): real {
    if x < y then y else x
  }

  function Ceiling(x: real): (n: int)
    ensures (n - 1) as real < x <= n as real
  {
    -((-x).Floor)
  }

  // ---- the row

  /** What the bucket holds at the moment of a draw. */
  function HeldAt(row: Option<Row>, rule: Rule, now: real): real {
    if row.None? then rule.capacity
    else
      var refilled := row.value.tokens + Greatest(0.0, now - row.value.updatedAt) * rule.refillPerSecond;
      Least(rule.capacity, Greatest(0.0, refilled))
  }

  function BucketLifetimeInSeconds(rule: Rule): real {
    if rule.refillPerSecond == 0.0 || rule.capacity / rule.refillPerSecond > LONGEST_BUCKET_LIFETIME_IN_SECONDS
    then LONGEST_BUCKET_LIFETIME_IN_SECONDS
    else Greatest(SHORTEST_BUCKET_LIFETIME_IN_SECONDS, Ceiling(rule.capacity / rule.refillPerSecond) as real)
  }

  function Drawn(row: Option<Row>, rule: Rule, now: real): Row {
    Row(HeldAt(row, rule, now) - 1.0, now, now + BucketLifetimeInSeconds(rule))
  }

  function SecondsUntilNextToken(tokens: real, refillPerSecond: real): Option<int> {
    if refillPerSecond <= 0.0 then None
    else
      var seconds := Ceiling((1.0 - tokens) / refillPerSecond);
      Some(if seconds < 1 then 1 else seconds)
  }

  function DecisionFor(tokens: real, rule: Rule): Decision {
    if tokens >= 0.0 then Allowed else Refused(SecondsUntilNextToken(tokens, rule.refillPerSecond))
  }

  function RowOf(rows: map<string, Row>, key: string): Option<Row> {
    if key in rows then Some(rows[key]) else None
  }

  class TokenBucketStore {
    var rows: map<string, Row>

    constructor ()
      ensures rows == map[]
    {
      rows := map[];
    }

    /** The insert, or the update of the row there is. */
    method Draw(key: string, rule: Rule, now: real) returns (tokens: real)
      modifies this
      ensures rows == old(rows)[key := Drawn(RowOf(old(rows), key), rule, now)]
      ensures tokens == rows[key].tokens
      ensures key !in old(rows) ==> tokens == rule.capacity - 1.0
    {
      hide BucketLifetimeInSeconds;
      var expiresAt := now + BucketLifetimeInSeconds(rule);
      if key !in rows {
        rows := rows[key := Row(rule.capacity - 1.0, now, expiresAt)];
      } else {
        var row := rows[key];
        var elapsed := Greatest(0.0, now - row.updatedAt);
        var refilled := Greatest(0.0, row.tokens + elapsed * rule.refillPerSecond);
        assert HeldAt(Some(row), rule, now) == Least(rule.capacity, refilled);
        rows := rows[key := Row(Least(rule.capacity, refilled) - 1.0, now, expiresAt)];
      }
      tokens := rows[key].tokens;
    }

    method Consume(key: string, rule: Rule, now: real) returns (decision: Decision)
      modifies this
      ensures rows == old(rows)[key := Drawn(RowOf(old(rows), key), rule, now)]
      ensures decision.Allowed? <==> HeldAt(RowOf(old(rows), key), rule, now) >= 1.0
      ensures decision == DecisionFor(rows[key].tokens, rule)
      // a key without a row has its full capacity, and any other what its row holds and what was refilled
      ensures key !in old(rows) ==> (decision.Allowed? <==> rule.capacity >= 1.0)
      ensures key in old(rows) ==>
        (decision.Allowed? <==>
           && rule.capacity >= 1.0
           && old(rows)[key].tokens + Greatest(0.0, now - old(rows)[key].updatedAt) * rule.refillPerSecond >= 1.0)
    {
      var tokens := Draw(key, rule, now);
      decision := DecisionFor(tokens, rule);
    }

    method SweepExpiredRows(now: real)
      modifies this
      ensures rows == map key | key in old(rows) && old(rows)[key].expiresAt > now :: old(rows)[key]
      ensures forall key | key in old(rows) && old(rows)[key].expiresAt <= now :: RowOf(rows, key).None?
    {
      rows := map key | key in rows && rows[key].expiresAt > now :: rows[key];
    }
  }

  // ---- levels

  predicate WithinLevels(row: Option<Row>, rule: Rule) {
    row.Some? ==> -1.0 <= row.value.tokens <= rule.capacity - 1.0
  }

  /** Whatever the row held before and whatever the clock reads. */
  lemma LevelsAreKept(row: Option<Row>, rule: Rule, now: real)
    requires Usable(rule)
    ensures WithinLevels(Some(Drawn(row, rule, now)), rule)
  {
  }

  // ---- what a run allows

  function After(row: Option<Row>, rule: Rule, times: seq<real>): Option<Row> {
    if times == [] then row else Some(Drawn(After(row, rule, times[..|times| - 1]), rule, times[|times| - 1]))
  }

  function CountAllowed(row: Option<Row>, rule: Rule, times: seq<real>): nat {
    if times == [] then 0
    else
      var before := times[..|times| - 1];
      var held := HeldAt(After(row, rule, before), rule, times[|times| - 1]);
      CountAllowed(row, rule, before) + (if held >= 1.0 then 1 else 0)
  }

  predicate InOrder(times: seq<real>) {
    forall i, j | 0 <= i < j < |times| :: times[i] <= times[j]
  }

  lemma Grows(x: real, y: real, rate: real)
    requires x <= y && rate >= 0.0
    ensures x * rate <= y * rate && (y - x) * rate >= 0.0
  {
  }

  lemma StrictlyGrows(x: real, y: real, rate: real)
    requires x < y && rate > 0.0
    ensures x * rate < y * rate
  {
  }

  /** What the time between two moments refills. */
  function Refilled(rule: Rule, earlier: real, later: real): real {
    (later - earlier) * rule.refillPerSecond
  }

  lemma TimesAddUp(rule: Rule, a: real, b: real, c: real)
    ensures Refilled(rule, a, b) + Refilled(rule, b, c) == Refilled(rule, a, c)
  {
  }

  /** One draw takes what it is allowed out of the tokens left and what was refilled since. */
  lemma DrawIsCovered(last: Row, rule: Rule, now: real)
    requires Usable(rule) && last.updatedAt <= now
    ensures Taken(Some(last), rule, now) as real + Greatest(0.0, Drawn(Some(last), rule, now).tokens)
      <= Greatest(0.0, last.tokens) + Refilled(rule, last.updatedAt, now)
  {
    hide BucketLifetimeInSeconds;
    Grows(0.0, now - last.updatedAt, rule.refillPerSecond);
  }

  function Taken(row: Option<Row>, rule: Rule, now: real): nat {
    if HeldAt(row, rule, now) >= 1.0 then 1 else 0
  }

  lemma FirstDrawIsCovered(row: Option<Row>, rule: Rule, now: real)
    requires Usable(rule)
    ensures Taken(row, rule, now) as real + Greatest(0.0, Drawn(row, rule, now).tokens) <= rule.capacity
  {
    hide BucketLifetimeInSeconds;
  }

  lemma LastDraw(row: Option<Row>, rule: Rule, times: seq<real>)
    requires times != []
    ensures var before, now := times[..|times| - 1], times[|times| - 1];
            var last := After(row, rule, before);
            && After(row, rule, times) == Some(Drawn(last, rule, now)) && Drawn(last, rule, now).updatedAt == now
            && CountAllowed(row, rule, times) == CountAllowed(row, rule, before) + Taken(last, rule, now)
  {
  }

  /** Allowed draws and the tokens left are covered by the capacity and the time passed. */
  lemma {:induction false} DrawsAreCovered(row: Option<Row>, rule: Rule, times: seq<real>)
    requires Usable(rule) && times != [] && InOrder(times)
    ensures After(row, rule, times).value.updatedAt == times[|times| - 1]
    ensures CountAllowed(row, rule, times) as real + Greatest(0.0, After(row, rule, times).value.tokens)
      <= rule.capacity + Refilled(rule, times[0], times[|times| - 1])
    decreases |times|
  {
    hide BucketLifetimeInSeconds, HeldAt, Greatest, Taken, Drawn, Refilled;
    var before, now := times[..|times| - 1], times[|times| - 1];
    LastDraw(row, rule, times);
    if before == [] {
      assert times[0] == now;
      FirstDrawIsCovered(row, rule, now);
      TimesAddUp(rule, now, now, now);
    } else {
      DrawsAreCovered(row, rule, before);
      var last := After(row, rule, before).value;
      assert last.updatedAt == times[|times| - 2] <= now && before[0] == times[0];
      DrawIsCovered(last, rule, now);
      TimesAddUp(rule, times[0], last.updatedAt, now);
    }
  }

  /** Over any run of draws, and from any row: no more are allowed than the capacity and what the time
      between the first and the last refills. */
  lemma AllowedIsBounded(row: Option<Row>, rule: Rule, times: seq<real>)
    requires Usable(rule) && times != [] && InOrder(times)
    ensures CountAllowed(row, rule, times) as real
      <= rule.capacity + Refilled(rule, times[0], times[|times| - 1])
  {
    DrawsAreCovered(row, rule, times);
  }

  // ---- what a run is allowed at least

  /** The whole tokens in a level. */
  function WholeTokens(level: real): (n: nat)
    ensures level >= 0.0 ==> n as real <= level < n as real + 1.0
  {
    if level < 0.0 then 0 else level.Floor
  }

  /** The level a row stands at before anything is refilled; the full capacity where there is none. */
  function LevelAtLeast(row: Option<Row>, rule: Rule): real {
    match row
    case None => rule.capacity
    case Some(r) => Least(rule.capacity, Greatest(0.0, r.tokens))
  }

  lemma HeldIsAtLeast(row: Option<Row>, rule: Rule, now: real)
    requires Usable(rule)
    ensures HeldAt(row, rule, now) >= LevelAtLeast(row, rule)
  {
    if row.Some? {
      Grows(0.0, Greatest(0.0, now - row.value.updatedAt), rule.refillPerSecond);
    }
  }

  /** Each draw takes one token at most, whatever the clock does. */
  lemma {:induction false} DrawsTakeOneEach(row: Option<Row>, rule: Rule, times: seq<real>)
    requires Usable(rule)
    ensures LevelAtLeast(After(row, rule, times), rule) >= LevelAtLeast(row, rule) - |times| as real
  {
    if times != [] {
      var before, now := times[..|times| - 1], times[|times| - 1];
      DrawsTakeOneEach(row, rule, before);
      LastDraw(row, rule, times);
      HeldIsAtLeast(After(row, rule, before), rule, now);
      LevelsAreKept(After(row, rule, before), rule, now);
      hide HeldAt, BucketLifetimeInSeconds;
      assert After(row, rule, times).value.tokens == HeldAt(After(row, rule, before), rule, now) - 1.0;
    }
  }

  /** Over any run of draws, under any clock: as many are allowed as there are whole tokens at its start,
      or all of them where they are fewer. */
  lemma {:induction false} AllowedAtLeast(row: Option<Row>, rule: Rule, times: seq<real>)
    requires Usable(rule)
    ensures CountAllowed(row, rule, times) >= WholeTokens(LevelAtLeast(row, rule))
         || CountAllowed(row, rule, times) == |times|
  {
    if times != [] {
      var before, now := times[..|times| - 1], times[|times| - 1];
      AllowedAtLeast(row, rule, before);
      LastDraw(row, rule, times);
      if |before| < WholeTokens(LevelAtLeast(row, rule)) {
        DrawsTakeOneEach(row, rule, before);
        HeldIsAtLeast(After(row, rule, before), rule, now);
        hide HeldAt, LevelAtLeast;
      }
    }
  }

  lemma {:induction false} NoMoreThanDrawn(row: Option<Row>, rule: Rule, times: seq<real>)
    ensures CountAllowed(row, rule, times) <= |times|
  {
    if times != [] {
      NoMoreThanDrawn(row, rule, times[..|times| - 1]);
    }
  }

  /** Draws at one moment from a key without a row: exactly the whole part of the capacity is allowed, or
      every draw where they are fewer. */
  lemma FullBucketAllowsItsCapacity(rule: Rule, times: seq<real>, now: real)
    requires Usable(rule) && forall t | t in times :: t == now
    ensures var whole := WholeTokens(rule.capacity);
            CountAllowed(None, rule, times) == if |times| < whole then |times| else whole
  {
    hide CountAllowed, WholeTokens;
    AllowedAtLeast(None, rule, times);
    NoMoreThanDrawn(None, rule, times);
    NoMoreThanHeld(rule, times, now);
    WholeTokensAreMost(CountAllowed(None, rule, times), rule.capacity);
  }

  lemma NoMoreThanHeld(rule: Rule, times: seq<real>, now: real)
    requires Usable(rule) && forall t | t in times :: t == now
    ensures CountAllowed(None, rule, times) as real <= rule.capacity
  {
    if times != [] {
      assert forall i | 0 <= i < |times| :: times[i] in times;
      hide CountAllowed;
      AllowedIsBounded(None, rule, times);
      NothingRefilled(rule, now);
    }
  }

  lemma NothingRefilled(rule: Rule, now: real)
    ensures Refilled(rule, now, now) == 0.0
  {
  }

  lemma WholeTokensAreMost(n: nat, level: real)
    requires n as real <= level
    ensures n <= WholeTokens(level)
  {
  }

  /** When the next draw from a row is allowed: its tokens and what the time passed refills make one, in a
      bucket that holds one at all. */
  lemma NextAllowedExactly(row: Row, rule: Rule, now: real)
    requires Usable(rule) && row.updatedAt <= now
    ensures HeldAt(Some(row), rule, now) >= 1.0
      <==> rule.capacity >= 1.0 && row.tokens + (now - row.updatedAt) * rule.refillPerSecond >= 1.0
  {
    SameProduct(Greatest(0.0, now - row.updatedAt), now - row.updatedAt, rule.refillPerSecond);
    NextAllowedFrom(row, rule, now, (now - row.updatedAt) * rule.refillPerSecond);
  }

  lemma NextAllowedFrom(row: Row, rule: Rule, now: real, refilled: real)
    requires refilled == Greatest(0.0, now - row.updatedAt) * rule.refillPerSecond
    ensures HeldAt(Some(row), rule, now) >= 1.0 <==> rule.capacity >= 1.0 && row.tokens + refilled >= 1.0
  {
    assert HeldAt(Some(row), rule, now) == Least(rule.capacity, Greatest(0.0, row.tokens + refilled));
  }

  lemma HeldIsMonotone(a: Row, b: Row, rule: Rule, now: real)
    requires Usable(rule) && a.tokens <= b.tokens && a.updatedAt == b.updatedAt
    ensures HeldAt(Some(a), rule, now) <= HeldAt(Some(b), rule, now)
  {
  }

  /** A swept key is a full bucket: whatever the row that was swept, no run of draws after it is allowed
      less than it would have been. */
  lemma {:induction false} SweepingTakesNothing(row: Row, rule: Rule, times: seq<real>)
    requires Usable(rule)
    ensures CountAllowed(None, rule, times) >= CountAllowed(Some(row), rule, times)
    ensures times != [] ==> After(None, rule, times).value.tokens >= After(Some(row), rule, times).value.tokens
    ensures times != [] ==> After(None, rule, times).value.updatedAt == After(Some(row), rule, times).value.updatedAt
  {
    if times != [] {
      var before, now := times[..|times| - 1], times[|times| - 1];
      SweepingTakesNothing(row, rule, before);
      LastDraw(None, rule, times);
      LastDraw(Some(row), rule, times);
      if before != [] {
        HeldIsMonotone(After(Some(row), rule, before).value, After(None, rule, before).value, rule, now);
      }
      hide CountAllowed, BucketLifetimeInSeconds;
      if before == [] {
        assert HeldAt(None, rule, now) == rule.capacity >= HeldAt(Some(row), rule, now);
      }
    }
  }

  // ---- the hint

  lemma Divided(x: real, y: real)
    requires y > 0.0
    ensures x / y * y == x
  {
  }

  lemma Reaches(seconds: int, x: real, rate: real)
    requires rate > 0.0
    ensures seconds as real * rate >= x <==> seconds >= Ceiling(x / rate)
  {
    Divided(x, rate);
    var q := x / rate;
    if seconds as real >= q {
      Grows(q, seconds as real, rate);
    } else {
      StrictlyGrows(seconds as real, q, rate);
    }
  }

  /** After a refusal, the hint is the least whole number of seconds after which a draw is allowed, where
      the capacity is one at least; where it is less, no wait is long enough. */
  lemma HintIsLeast(row: Row, rule: Rule, seconds: int)
    requires Usable(rule) && WithinLevels(Some(row), rule) && row.tokens < 0.0 && rule.refillPerSecond > 0.0
    requires seconds >= 1
    ensures DecisionFor(row.tokens, rule).Refused? && DecisionFor(row.tokens, rule).retryAfterSeconds.Some?
    ensures HeldAt(Some(row), rule, row.updatedAt + seconds as real) >= 1.0
      <==> rule.capacity >= 1.0 && seconds >= DecisionFor(row.tokens, rule).retryAfterSeconds.value
  {
    Reaches(seconds, 1.0 - row.tokens, rule.refillPerSecond);
  }

  /** There is no hint exactly where no wait helps: in a bucket that holds one token at all, where nothing
      is refilled. */
  lemma NoHintExactlyWithoutHope(row: Row, rule: Rule)
    requires Usable(rule) && rule.capacity >= 1.0 && WithinLevels(Some(row), rule) && row.tokens < 0.0
    ensures DecisionFor(row.tokens, rule) == Refused(None)
      <==> forall later: real | later >= row.updatedAt :: HeldAt(Some(row), rule, later) < 1.0
  {
    if rule.refillPerSecond > 0.0 {
      var hint := DecisionFor(row.tokens, rule).retryAfterSeconds.value;
      HintIsLeast(row, rule, hint);
      assert HeldAt(Some(row), rule, row.updatedAt + hint as real) >= 1.0;
    }
  }

  /** A row is kept for a minute at least and a day at most, and within them no longer than a second past
      the time that refills the bucket. */
  lemma LifetimeIsBounded(rule: Rule)
    requires Usable(rule)
    ensures var lifetime := BucketLifetimeInSeconds(rule);
            && 60.0 <= lifetime <= 86_400.0
            && (60.0 < lifetime < 86_400.0 ==>
                  lifetime * rule.refillPerSecond >= rule.capacity
                  && (lifetime - 1.0) * rule.refillPerSecond < rule.capacity)
  {
    if rule.refillPerSecond > 0.0 {
      var whole := Ceiling(rule.capacity / rule.refillPerSecond) as real;
      LifetimeForm(rule, whole);
      JustFilled(rule.capacity, rule.refillPerSecond, whole);
    }
  }

  lemma LifetimeForm(rule: Rule, whole: real)
    requires Usable(rule) && rule.refillPerSecond > 0.0
    requires whole == Ceiling(rule.capacity / rule.refillPerSecond) as real
    ensures var lifetime := BucketLifetimeInSeconds(rule);
            60.0 <= lifetime <= 86_400.0 && (60.0 < lifetime < 86_400.0 ==> lifetime == whole)
  {
    WithinADay(rule.capacity / rule.refillPerSecond);
  }

  lemma JustFilled(capacity: real, rate: real, whole: real)
    requires rate > 0.0 && whole == Ceiling(capacity / rate) as real
    ensures whole * rate >= capacity && (whole - 1.0) * rate < capacity
  {
    Reaches(Ceiling(capacity / rate), capacity, rate);
    Reaches(Ceiling(capacity / rate) - 1, capacity, rate);
    assert (Ceiling(capacity / rate) - 1) as real == whole - 1.0;
  }

  lemma WithinADay(q: real)
    ensures q <= LONGEST_BUCKET_LIFETIME_IN_SECONDS ==> Ceiling(q) as real <= LONGEST_BUCKET_LIFETIME_IN_SECONDS
  {
    var n := Ceiling(q);
    hide Ceiling;
    assert n >= 86_401 ==> (n - 1) as real >= 86_400.0;
    assert n <= 86_400 ==> n as real <= 86_400.0;
  }

  lemma SameProduct(x: real, y: real, rate: real)
    requires x == y
    ensures x * rate == y * rate
  {
  }

  // ---- sweeping

  /** A row swept after it has expired: the next draw finds the bucket full. */
  function SweptGain(row: Row, rule: Rule, now: real): real {
    rule.capacity - HeldAt(Some(row), rule, now)
  }

  predicate RefillsInADay(rule: Rule) {
    rule.capacity <= LONGEST_BUCKET_LIFETIME_IN_SECONDS * rule.refillPerSecond
  }

  lemma LifetimeRefills(rule: Rule)
    requires Usable(rule) && RefillsInADay(rule)
    ensures BucketLifetimeInSeconds(rule) * rule.refillPerSecond >= rule.capacity
  {
    var r := rule.refillPerSecond;
    if r > 0.0 {
      Divided(rule.capacity, r);
      var q := rule.capacity / r;
      Grows(q, Ceiling(q) as real, r);
      Grows(Ceiling(q) as real, Greatest(SHORTEST_BUCKET_LIFETIME_IN_SECONDS, Ceiling(q) as real), r);
    }
  }

  /** What a sweep gives back: never less than nothing, at most what the last draw was short of, and so at
      most one token, and none where the last draw was allowed. */
  lemma SweepGivesBackLittle(row: Row, rule: Rule, now: real)
    requires Usable(rule) && WithinLevels(Some(row), rule) && RefillsInADay(rule)
    requires row.expiresAt == row.updatedAt + BucketLifetimeInSeconds(rule) && row.expiresAt <= now
    ensures 0.0 <= SweptGain(row, rule, now) <= Greatest(0.0, -row.tokens) <= 1.0
    ensures row.tokens >= 0.0 ==> SweptGain(row, rule, now) == 0.0
  {
    var elapsed := now - row.updatedAt;
    LifetimeRefills(rule);
    LifetimeIsPositive(rule);
    hide BucketLifetimeInSeconds;
    assert Greatest(0.0, now - row.updatedAt) == elapsed;
    var lifetime, refilled := BucketLifetimeInSeconds(rule), elapsed * rule.refillPerSecond;
    Grows(lifetime, elapsed, rule.refillPerSecond);
    assert refilled >= rule.capacity;
    GainOfTheRefilled(row, rule, now, refilled);
  }

  lemma GainOfTheRefilled(row: Row, rule: Rule, now: real, refilled: real)
    requires WithinLevels(Some(row), rule) && rule.capacity >= 0.0
    requires refilled >= rule.capacity && refilled == Greatest(0.0, now - row.updatedAt) * rule.refillPerSecond
    ensures 0.0 <= SweptGain(row, rule, now) <= Greatest(0.0, -row.tokens) <= 1.0
    ensures row.tokens >= 0.0 ==> SweptGain(row, rule, now) == 0.0
  {
    assert HeldAt(Some(row), rule, now) == Least(rule.capacity, Greatest(0.0, row.tokens + refilled));
  }

  lemma LifetimeIsPositive(rule: Rule)
    ensures BucketLifetimeInSeconds(rule) > 0.0
  {
  }

  ghost predicate SweepsGiveOneAtMost(rule: Rule) {
    forall row: Row, now: real ::
      WithinLevels(Some(row), rule) && row.expiresAt == row.updatedAt + BucketLifetimeInSeconds(rule) <= now
      ==> SweptGain(row, rule, now) <= 1.0
  }

  /** A sweep never gives back more than one token exactly where the bucket refills within a day, or holds
      no more than one token. */
  lemma SweepsGiveOneAtMostExactly(rule: Rule)
    requires Usable(rule)
    ensures SweepsGiveOneAtMost(rule) <==> RefillsInADay(rule) || rule.capacity <= 1.0
  {
    if RefillsInADay(rule) || rule.capacity <= 1.0 {
      forall row: Row, now: real |
        WithinLevels(Some(row), rule) && row.expiresAt == row.updatedAt + BucketLifetimeInSeconds(rule) <= now
        ensures SweptGain(row, rule, now) <= 1.0
      {
        if RefillsInADay(rule) {
          SweepGivesBackLittle(row, rule, now);
        }
      }
    } else {
      SlowBucketGivesMore(rule);
    }
  }

  lemma SlowBucketGivesMore(rule: Rule)
    requires Usable(rule) && !RefillsInADay(rule) && rule.capacity > 1.0
    ensures !SweepsGiveOneAtMost(rule)
  {
    var day := LONGEST_BUCKET_LIFETIME_IN_SECONDS;
    LifetimeIsADay(rule);
    var row := Row(-1.0, 0.0, day);
    assert SweptGain(row, rule, day) > 1.0;
  }

  lemma LifetimeIsADay(rule: Rule)
    requires Usable(rule) && !RefillsInADay(rule)
    ensures BucketLifetimeInSeconds(rule) == LONGEST_BUCKET_LIFETIME_IN_SECONDS
  {
    var r := rule.refillPerSecond;
    if r > 0.0 {
      Divided(rule.capacity, r);
      if rule.capacity / r <= LONGEST_BUCKET_LIFETIME_IN_SECONDS {
        Grows(rule.capacity / r, LONGEST_BUCKET_LIFETIME_IN_SECONDS, r);
      }
    }
  }
}
