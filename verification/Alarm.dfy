/** The alarm limiter: what is delivered, what is only counted, and what a flood cannot do. */
module Alarm {
  import opened Options
  import opened Text

  datatype Occasion = SignIn | FactorCheck | SessionResolve | TokenRedemption | Change | Maintenance

  datatype Reason =
    | SealMissing | SealMismatch | KeyVersionUnknown | VersionBelowAnchor | AnchorUnavailable | AnchorMismatch
    | TokenBindingMismatch | EnvelopeBindingMismatch | KeyUnusable

  datatype Raised = Raised(userId: Option<string>, occasion: Occasion, reason: Reason)

  datatype Event = Single(raised: Raised, suppressed: nat) | Aggregate(suppressed: nat)

  datatype Delivery = Delivery(time: int, event: Event)

  const WINDOW_MILLISECONDS := 60_000
  const DELIVERIES_PER_WINDOW := 100
  const KEYS_HELD := 10_000

  // ---- the key

  function OccasionText(o: Occasion): string {
    match o
    case SignIn => "sign_in"
    case FactorCheck => "factor_check"
    case SessionResolve => "session_resolve"
    case TokenRedemption => "token_redemption"
    case Change => "change"
    case Maintenance => "maintenance"
  }

  function ReasonText(r: Reason): string {
    match r
    case SealMissing => "seal_missing"
    case SealMismatch => "seal_mismatch"
    case KeyVersionUnknown => "key_version_unknown"
    case VersionBelowAnchor => "version_below_anchor"
    case AnchorUnavailable => "anchor_unavailable"
    case AnchorMismatch => "anchor_mismatch"
    case TokenBindingMismatch => "token_binding_mismatch"
    case EnvelopeBindingMismatch => "envelope_binding_mismatch"
    case KeyUnusable => "key_unusable"
  }

  function AccountText(userId: Option<string>): string {
    if userId.None? then "-" else "account:" + userId.value
  }

  function DeduplicationKey(a: Raised): string {
    AccountText(a.userId) + "|" + OccasionText(a.occasion) + "|" + ReasonText(a.reason)
  }

  function LastBarIn(s: string): int {
    if s == "" then -1 else if s[|s| - 1] == '|' then |s| - 1 else LastBarIn(s[..|s| - 1])
  }

  lemma {:induction false} LastBarBefore(u: string, v: string)
    requires Free(v, '|')
    ensures LastBarIn(u + "|" + v) == |u|
  {
    var s := u + "|" + v;
    if v != "" {
      assert s[|s| - 1] == v[|v| - 1];
      assert s[..|s| - 1] == u + "|" + v[..|v| - 1];
      LastBarBefore(u, v[..|v| - 1]);
    }
  }

  lemma LastBar(u: string, v: string, x: string, y: string)
    requires u + "|" + v == x + "|" + y && Free(v, '|') && Free(y, '|')
    ensures u == x && v == y
  {
    var s := u + "|" + v;
    LastBarBefore(u, v);
    LastBarBefore(x, y);
    assert u == s[..|u|] && x == s[..|x|];
    assert v == s[|u| + 1..] && y == s[|x| + 1..];
  }

  function OccasionLength(o: Occasion): nat {
    match o case SignIn => 7 case FactorCheck => 12 case SessionResolve => 15
    case TokenRedemption => 16 case Change => 6 case Maintenance => 11
  }

  lemma OccasionIsShort(o: Occasion)
    ensures |OccasionText(o)| == OccasionLength(o) && Free(OccasionText(o), '|')
  {
  }

  function ReasonLength(r: Reason): nat {
    match r case SealMissing => 12 case SealMismatch => 13 case KeyVersionUnknown => 19 case VersionBelowAnchor => 20
    case AnchorUnavailable => 18 case AnchorMismatch => 15 case TokenBindingMismatch => 22
    case EnvelopeBindingMismatch => 25 case KeyUnusable => 12
  }

  predicate IsSealReason(r: Reason) {
    r.SealMissing? || r.SealMismatch? || r.KeyVersionUnknown? || r.VersionBelowAnchor? || r.AnchorMismatch?
  }

  lemma SealReasonIsFree(r: Reason)
    requires IsSealReason(r)
    ensures Free(ReasonText(r), '|')
  {
  }

  lemma OtherReasonIsFree(r: Reason)
    requires !IsSealReason(r)
    ensures Free(ReasonText(r), '|')
  {
  }

  lemma ReasonIsFree(r: Reason)
    ensures Free(ReasonText(r), '|')
  {
    hide ReasonText, Free;
    if IsSealReason(r) {
      SealReasonIsFree(r);
    } else {
      OtherReasonIsFree(r);
    }
  }

  lemma ReasonIsShort(r: Reason)
    ensures |ReasonText(r)| == ReasonLength(r)
    ensures r.SealMissing? || r.KeyUnusable? ==> ReasonText(r)[0] == if r.SealMissing? then 's' else 'k'
  {
  }

  /** Two alarms have one key exactly when they are the same account, occasion and reason. */
  lemma KeysApart(a: Raised, b: Raised)
    ensures DeduplicationKey(a) == DeduplicationKey(b) <==> a == b
  {
    hide OccasionText, ReasonText, AccountText;
    if DeduplicationKey(a) == DeduplicationKey(b) {
      OccasionIsShort(a.occasion);
      OccasionIsShort(b.occasion);
      ReasonIsShort(a.reason);
      ReasonIsShort(b.reason);
      ReasonIsFree(a.reason);
      ReasonIsFree(b.reason);
      var u, v := AccountText(a.userId) + "|" + OccasionText(a.occasion), AccountText(b.userId) + "|" + OccasionText(b.occasion);
      LastBar(u, ReasonText(a.reason), v, ReasonText(b.reason));
      LastBar(AccountText(a.userId), OccasionText(a.occasion), AccountText(b.userId), OccasionText(b.occasion));
      AccountsApart(a.userId, b.userId);
    }
  }

  lemma AccountsApart(a: Option<string>, b: Option<string>)
    requires AccountText(a) == AccountText(b)
    ensures a == b
  {
    assert a.Some? ==> AccountText(a)[0] == 'a' && a.value == AccountText(a)[8..];
    assert b.Some? ==> AccountText(b)[0] == 'a' && b.value == AccountText(b)[8..];
  }

  // ---- the map of keys, which keeps the order its keys were set in

  datatype Entry = Entry(key: string, time: int)

  function EntryOf(entries: seq<Entry>, key: string): (i: nat)
    ensures i <= |entries| && (i < |entries| ==> entries[i].key == key)
    ensures forall j | 0 <= j < i :: entries[j].key != key
  {
    if entries == [] || entries[0].key == key then 0 else 1 + EntryOf(entries[1..], key)
  }

  function Without(entries: seq<Entry>, key: string): seq<Entry> {
    var i := EntryOf(entries, key);
    if i < |entries| then entries[..i] + entries[i + 1..] else entries
  }

  function Recent(times: seq<int>, now: int): seq<int> {
    if times == [] then []
    else (if now - times[0] < WINDOW_MILLISECONDS then [times[0]] else []) + Recent(times[1..], now)
  }

  // ---- one alarm raised

  datatype Limiter = Limiter(deliveredAt: seq<Entry>, recentDeliveries: seq<int>, suppressed: nat, aggregateWindowStart: int)

  function Started(now: int): Limiter {
    Limiter([], [], 0, now)
  }

  /** The key set now, and the oldest key gone once there are too many. */
  function Remembered(entries: seq<Entry>, key: string, now: int): seq<Entry> {
    var longer := Without(entries, key) + [Entry(key, now)];
    if |longer| > KEYS_HELD then longer[1..] else longer
  }

  predicate IsRepeat(l: Limiter, key: string, now: int) {
    var i := EntryOf(l.deliveredAt, key);
    i < |l.deliveredAt| && now - l.deliveredAt[i].time < WINDOW_MILLISECONDS
  }

  function Next(l: Limiter, a: Raised, now: int): (Limiter, Option<Event>) {
    var key := DeduplicationKey(a);
    if IsRepeat(l, key, now) then
      if now - l.aggregateWindowStart >= WINDOW_MILLISECONDS
      then (l.(suppressed := 0, aggregateWindowStart := now), Some(Aggregate(l.suppressed + 1)))
      else (l.(suppressed := l.suppressed + 1), None)
    else
      var recent := Recent(l.recentDeliveries, now);
      if |recent| >= DELIVERIES_PER_WINDOW
      then (l.(recentDeliveries := recent, suppressed := l.suppressed + 1), None)
      else (Limiter(Remembered(l.deliveredAt, key, now), recent + [now], 0, l.aggregateWindowStart),
            Some(Single(a, l.suppressed)))
  }

  class SecurityStateAlarms {
    var deliveredAt: seq<Entry>
    var recentDeliveries: seq<int>
    var suppressed: nat
    var aggregateWindowStart: int
    /** What was handed to the callback. */
    var delivered: seq<Event>

    constructor (now: int)
      ensures State() == Started(now) && delivered == []
    {
      deliveredAt, recentDeliveries, suppressed, aggregateWindowStart, delivered := [], [], 0, now, [];
    }

    function State(): Limiter
      reads this
    {
      Limiter(deliveredAt, recentDeliveries, suppressed, aggregateWindowStart)
    }

    method Deliver(event: Event)
      modifies this`suppressed, this`delivered
      ensures suppressed == 0 && delivered == old(delivered) + [event]
    {
      suppressed := 0;
      delivered := delivered + [event];
    }

    method Raise(a: Raised, now: int)
      modifies this
      ensures State() == Next(old(State()), a, now).0
      ensures delivered == old(delivered) + (match Next(old(State()), a, now).1 case Some(e) => [e] case None => [])
    {
      var key := DeduplicationKey(a);
      var lastDelivered := EntryOf(deliveredAt, key);
      if lastDelivered < |deliveredAt| && now - deliveredAt[lastDelivered].time < WINDOW_MILLISECONDS {
        suppressed := suppressed + 1;
        if now - aggregateWindowStart >= WINDOW_MILLISECONDS {
          aggregateWindowStart := now;
          Deliver(Aggregate(suppressed));
        }
        return;
      }
      recentDeliveries := Recent(recentDeliveries, now);
      if |recentDeliveries| >= DELIVERIES_PER_WINDOW {
        suppressed := suppressed + 1;
        return;
      }
      recentDeliveries := recentDeliveries + [now];
      deliveredAt := Without(deliveredAt, key);
      deliveredAt := deliveredAt + [Entry(key, now)];
      if |deliveredAt| > KEYS_HELD {
        deliveredAt := deliveredAt[1..];
      }
      Deliver(Single(a, suppressed));
    }
  }

  // ---- a run

  datatype Call = Call(raised: Raised, now: int)

  /** The limiter after the calls, and everything delivered with its time. */
  function Run(start: int, calls: seq<Call>): (Limiter, seq<Delivery>) {
    if calls == [] then (Started(start), [])
    else
      var last := calls[|calls| - 1];
      var (l, log) := Run(start, calls[..|calls| - 1]);
      var (after, event) := Next(l, last.raised, last.now);
      (after, if event.Some? then log + [Delivery(last.now, event.value)] else log)
  }

  function Singles(log: seq<Delivery>): (singles: seq<Delivery>)
    ensures forall i | 0 <= i < |singles| :: singles[i].event.Single?
  {
    if log == [] then []
    else
      var last := log[|log| - 1];
      Singles(log[..|log| - 1]) + (if last.event.Single? then [last] else [])
  }

  function Aggregates(log: seq<Delivery>): seq<int> {
    if log == [] then []
    else
      var last := log[|log| - 1];
      Aggregates(log[..|log| - 1]) + (if last.event.Aggregate? then [last.time] else [])
  }

  function Reported(log: seq<Delivery>): nat {
    if log == [] then 0 else Reported(log[..|log| - 1]) + log[|log| - 1].event.suppressed
  }

  lemma LogGrows(log: seq<Delivery>, d: Delivery)
    ensures Reported(log + [d]) == Reported(log) + d.event.suppressed
    ensures Singles(log + [d]) == if d.event.Single? then Singles(log) + [d] else Singles(log)
    ensures Aggregates(log + [d]) == if d.event.Aggregate? then Aggregates(log) + [d.time] else Aggregates(log)
  {
    assert (log + [d])[..|log|] == log;
  }

  function CallsEnd(start: int, calls: seq<Call>): int {
    if calls == [] then start else calls[|calls| - 1].now
  }

  /** The clock never goes back. */
  predicate Ordered(start: int, calls: seq<Call>) {
    calls == [] || (CallsEnd(start, calls[..|calls| - 1]) <= calls[|calls| - 1].now && Ordered(start, calls[..|calls| - 1]))
  }

  /** Every alarm raised was delivered, was counted in a delivery, or is counted and waits for one. */
  lemma {:induction false} NothingIsLost(start: int, calls: seq<Call>)
    ensures var (l, log) := Run(start, calls); |calls| == |Singles(log)| + Reported(log) + l.suppressed
  {
    hide Recent, Remembered, IsRepeat, DeduplicationKey;
    if calls != [] {
      var before := calls[..|calls| - 1];
      var last := calls[|calls| - 1];
      NothingIsLost(start, before);
      var (l, log) := Run(start, before);
      var event := Next(l, last.raised, last.now).1;
      if event.Some? {
        LogGrows(log, Delivery(last.now, event.value));
      }
    }
  }

  // ---- what every run keeps

  function KeyOf(d: Delivery): string
    requires d.event.Single?
  {
    DeduplicationKey(d.event.raised)
  }

  predicate AllSingle(ds: seq<Delivery>) {
    forall i | 0 <= i < |ds| :: ds[i].event.Single?
  }

  /** In time's order, none later than now. */
  ghost predicate InOrder(ds: seq<Delivery>, now: int) {
    && (forall i, j | 0 <= i < j < |ds| :: ds[i].time <= ds[j].time)
    && forall i | 0 <= i < |ds| :: ds[i].time <= now
  }

  /** A window's length lies between any delivery and the hundredth after it. */
  ghost predicate Spread(ds: seq<Delivery>) {
    forall i, j | 0 <= i && i + DELIVERIES_PER_WINDOW <= j < |ds| :: ds[i].time + WINDOW_MILLISECONDS <= ds[j].time
  }

  ghost predicate NoRepeat(ds: seq<Delivery>)
    requires AllSingle(ds)
  {
    forall i, j | 0 <= i < j < |ds| && KeyOf(ds[i]) == KeyOf(ds[j]) :: ds[i].time + WINDOW_MILLISECONDS <= ds[j].time
  }

  function Times(ds: seq<Delivery>): (ts: seq<int>)
    ensures |ts| == |ds| && forall i | 0 <= i < |ds| :: ts[i] == ds[i].time
  {
    seq(|ds|, i requires 0 <= i < |ds| => ds[i].time)
  }

  /** The recent deliveries are the last ones, and those before them have left the window. */
  ghost predicate RecentAreLast(recent: seq<int>, ds: seq<Delivery>, k: nat, now: int) {
    && k <= |ds| <= k + DELIVERIES_PER_WINDOW && recent == Times(ds)[k..]
    && forall i | 0 <= i < k :: ds[i].time + WINDOW_MILLISECONDS <= now
  }

  ghost predicate DistinctKeys(entries: seq<Entry>) {
    forall i, j | 0 <= i < j < |entries| :: entries[i].key != entries[j].key
  }

  /** Each entry stands for a delivery, in the deliveries' order. */
  ghost predicate Stands(entries: seq<Entry>, ds: seq<Delivery>, at: seq<nat>)
    requires AllSingle(ds)
  {
    && |at| == |entries| && (forall i, j | 0 <= i < j < |at| :: at[i] < at[j])
    && forall i | 0 <= i < |at| :: at[i] < |ds| && entries[i] == Entry(KeyOf(ds[at[i]]), ds[at[i]].time)
  }

  ghost predicate HasEntry(entries: seq<Entry>, key: string, time: int) {
    exists i | 0 <= i < |entries| :: entries[i].key == key && entries[i].time >= time
  }

  /** No delivery within the window is forgotten. */
  ghost predicate Remembers(entries: seq<Entry>, ds: seq<Delivery>, now: int)
    requires AllSingle(ds)
  {
    forall i | 0 <= i < |ds| :: ds[i].time + WINDOW_MILLISECONDS <= now || HasEntry(entries, KeyOf(ds[i]), ds[i].time)
  }

  lemma {:induction false} RecentOfLast(ts: seq<int>, k: nat, now: int) returns (m: nat)
    requires k <= |ts| && forall i, j | 0 <= i < j < |ts| :: ts[i] <= ts[j]
    ensures k <= m <= |ts| && Recent(ts[k..], now) == ts[m..]
    ensures forall i | k <= i < m :: ts[i] + WINDOW_MILLISECONDS <= now
    decreases |ts| - k
  {
    if k == |ts| {
      m := k;
    } else {
      assert ts[k..][1..] == ts[k + 1..];
      m := RecentOfLast(ts, k + 1, now);
      if now - ts[k] < WINDOW_MILLISECONDS {
        assert m == k + 1;
        m := k;
        assert ts[k..] == [ts[k]] + ts[k + 1..];
      }
    }
  }

  lemma DistinctEntry(entries: seq<Entry>, i: nat)
    requires i < |entries| && DistinctKeys(entries)
    ensures EntryOf(entries, entries[i].key) == i
  {
  }

  /** A key not repeated was last delivered a window ago at least. */
  lemma UnrepeatedIsOld(l: Limiter, ds: seq<Delivery>, before: int, key: string, now: int)
    requires AllSingle(ds) && DistinctKeys(l.deliveredAt) && Remembers(l.deliveredAt, ds, before) && before <= now
    requires !IsRepeat(l, key, now)
    ensures forall i | 0 <= i < |ds| && KeyOf(ds[i]) == key :: ds[i].time + WINDOW_MILLISECONDS <= now
  {
    forall i | 0 <= i < |ds| && KeyOf(ds[i]) == key
      ensures ds[i].time + WINDOW_MILLISECONDS <= now
    {
      if ds[i].time + WINDOW_MILLISECONDS > before {
        var j :| 0 <= j < |l.deliveredAt| && l.deliveredAt[j].key == key && l.deliveredAt[j].time >= ds[i].time;
        DistinctEntry(l.deliveredAt, j);
      }
    }
  }

  // ---- the map after a delivery

  function Dropped<T>(s: seq<T>, i: nat): seq<T> {
    if i < |s| then s[..i] + s[i + 1..] else s
  }

  function Moved(k: nat, i: nat): nat {
    if k < i then k else k + 1
  }

  lemma DroppedAt<T>(s: seq<T>, i: nat)
    ensures i < |s| ==> |Dropped(s, i)| == |s| - 1
    ensures i < |s| ==> forall k | 0 <= k < |s| - 1 :: Dropped(s, i)[k] == s[Moved(k, i)]
    ensures i >= |s| ==> Dropped(s, i) == s
  {
  }

  lemma DropKeeps(entries: seq<Entry>, ds: seq<Delivery>, at: seq<nat>, i: nat)
    requires AllSingle(ds) && DistinctKeys(entries) && Stands(entries, ds, at)
    ensures DistinctKeys(Dropped(entries, i)) && Stands(Dropped(entries, i), ds, Dropped(at, i))
    ensures i < |entries| ==> forall j | 0 <= j < |Dropped(entries, i)| :: Dropped(entries, i)[j].key != entries[i].key
  {
    hide Dropped, KeyOf;
    DroppedAt(entries, i);
    DroppedAt(at, i);
  }

  lemma AppendKeeps(entries: seq<Entry>, ds: seq<Delivery>, at: seq<nat>, d: Delivery)
    requires AllSingle(ds) && d.event.Single? && DistinctKeys(entries) && Stands(entries, ds, at)
    requires forall j | 0 <= j < |entries| :: entries[j].key != KeyOf(d)
    ensures AllSingle(ds + [d])
    ensures DistinctKeys(entries + [Entry(KeyOf(d), d.time)])
    ensures Stands(entries + [Entry(KeyOf(d), d.time)], ds + [d], at + [|ds|])
  {
    hide DeduplicationKey;
  }

  /** Setting a key puts it last, over the entry it had. */
  lemma SetKeepsEntries(entries: seq<Entry>, ds: seq<Delivery>, at: seq<nat>, d: Delivery) returns (newAt: seq<nat>)
    requires AllSingle(ds) && d.event.Single? && DistinctKeys(entries) && Stands(entries, ds, at)
    ensures var longer := Without(entries, KeyOf(d)) + [Entry(KeyOf(d), d.time)];
            AllSingle(ds + [d]) && DistinctKeys(longer) && Stands(longer, ds + [d], newAt)
  {
    hide DeduplicationKey, DistinctKeys, Stands, AllSingle, KeyOf;
    var i := EntryOf(entries, KeyOf(d));
    assert Without(entries, KeyOf(d)) == Dropped(entries, i);
    DropKeeps(entries, ds, at, i);
    AppendKeeps(Dropped(entries, i), ds, Dropped(at, i), d);
    newAt := Dropped(at, i) + [|ds|];
  }

  lemma HasEntryBefore(entries: seq<Entry>, latest: Entry, key: string, time: int)
    requires HasEntry(entries, key, time)
    ensures HasEntry(entries + [latest], key, time)
  {
    var j :| 0 <= j < |entries| && entries[j].key == key && entries[j].time >= time;
    assert (entries + [latest])[j] == entries[j];
  }

  lemma WithoutKeepsOthers(entries: seq<Entry>, gone: string, key: string, time: int)
    requires HasEntry(entries, key, time) && key != gone
    ensures HasEntry(Without(entries, gone), key, time)
  {
    var j :| 0 <= j < |entries| && entries[j].key == key && entries[j].time >= time;
    var e := EntryOf(entries, gone);
    if e < |entries| {
      var i := if j < e then j else j - 1;
      assert Without(entries, gone)[i] == entries[j];
    }
  }

  lemma SetKeepsOthers(entries: seq<Entry>, latest: Entry, key: string, time: int)
    requires HasEntry(entries, key, time) && key != latest.key
    ensures HasEntry(Without(entries, latest.key) + [latest], key, time)
  {
    hide HasEntry, Without;
    WithoutKeepsOthers(entries, latest.key, key, time);
    HasEntryBefore(Without(entries, latest.key), latest, key, time);
  }

  lemma SetRemembers(entries: seq<Entry>, ds: seq<Delivery>, before: int, d: Delivery)
    requires AllSingle(ds) && d.event.Single? && Remembers(entries, ds, before) && before <= d.time
    requires InOrder(ds, before)
    ensures var longer := Without(entries, KeyOf(d)) + [Entry(KeyOf(d), d.time)];
            AllSingle(ds + [d]) && Remembers(longer, ds + [d], d.time)
  {
    hide KeyOf, Without;
    var key := KeyOf(d);
    var longer := Without(entries, key) + [Entry(key, d.time)];
    assert longer[|longer| - 1] == Entry(key, d.time);
    forall i | 0 <= i < |ds| && ds[i].time + WINDOW_MILLISECONDS > d.time
      ensures HasEntry(longer, KeyOf(ds[i]), ds[i].time)
    {
      if KeyOf(ds[i]) != key {
        SetKeepsOthers(entries, Entry(key, d.time), KeyOf(ds[i]), ds[i].time);
      }
    }
  }

  lemma {:induction false} Climbs(at: seq<nat>, j: nat)
    requires j < |at| && forall i, k | 0 <= i < k < |at| :: at[i] < at[k]
    ensures at[j] >= at[0] + j
  {
    if j > 0 {
      Climbs(at, j - 1);
    }
  }

  /** The key dropped for want of room was delivered a window ago at least. */
  lemma OldestIsOld(entries: seq<Entry>, ds: seq<Delivery>, at: seq<nat>, now: int)
    requires AllSingle(ds) && Stands(entries, ds, at) && InOrder(ds, now) && Spread(ds) && |entries| > KEYS_HELD
    ensures entries[0].time + WINDOW_MILLISECONDS <= now
  {
    hide DeduplicationKey;
    Climbs(at, KEYS_HELD);
    assert ds[at[0]].time + WINDOW_MILLISECONDS <= ds[at[KEYS_HELD]].time;
  }

  lemma EvictRemembers(entries: seq<Entry>, ds: seq<Delivery>, now: int)
    requires AllSingle(ds) && DistinctKeys(entries) && Remembers(entries, ds, now)
    requires entries != [] && entries[0].time + WINDOW_MILLISECONDS <= now
    ensures Remembers(entries[1..], ds, now)
  {
    hide DeduplicationKey;
    forall i | 0 <= i < |ds| && ds[i].time + WINDOW_MILLISECONDS > now
      ensures HasEntry(entries[1..], KeyOf(ds[i]), ds[i].time)
    {
      var j :| 0 <= j < |entries| && entries[j].key == KeyOf(ds[i]) && entries[j].time >= ds[i].time;
      assert entries[1..][j - 1] == entries[j];
    }
  }

  lemma EvictStands(entries: seq<Entry>, ds: seq<Delivery>, at: seq<nat>)
    requires AllSingle(ds) && DistinctKeys(entries) && Stands(entries, ds, at) && entries != []
    ensures |at| == |entries| && DistinctKeys(entries[1..]) && Stands(entries[1..], ds, at[1..])
  {
    hide DeduplicationKey;
  }

  /** The state after a run, beside what was delivered in it. */
  ghost predicate Sound(l: Limiter, ds: seq<Delivery>, now: int, k: nat, at: seq<nat>) {
    && AllSingle(ds) && InOrder(ds, now) && Spread(ds) && NoRepeat(ds)
    && RecentAreLast(l.recentDeliveries, ds, k, now)
    && DistinctKeys(l.deliveredAt) && Stands(l.deliveredAt, ds, at) && Remembers(l.deliveredAt, ds, now)
  }

  lemma LaterIsSound(l: Limiter, ds: seq<Delivery>, before: int, k: nat, at: seq<nat>, now: int)
    requires Sound(l, ds, before, k, at) && before <= now
    ensures Sound(l, ds, now, k, at)
  {
    hide DeduplicationKey, KeyOf, HasEntry;
  }

  lemma RememberedIsSound(entries: seq<Entry>, ds: seq<Delivery>, at: seq<nat>, before: int, d: Delivery)
    returns (newAt: seq<nat>)
    requires AllSingle(ds) && d.event.Single? && DistinctKeys(entries) && Stands(entries, ds, at)
    requires Remembers(entries, ds, before) && InOrder(ds, before) && before <= d.time
    requires InOrder(ds + [d], d.time) && Spread(ds + [d])
    ensures AllSingle(ds + [d])
    ensures var kept := Remembered(entries, KeyOf(d), d.time);
            DistinctKeys(kept) && Stands(kept, ds + [d], newAt) && Remembers(kept, ds + [d], d.time)
  {
    hide DeduplicationKey, KeyOf, Without, DistinctKeys, Stands, Remembers, Spread, InOrder;
    var longer := Without(entries, KeyOf(d)) + [Entry(KeyOf(d), d.time)];
    newAt := SetKeepsEntries(entries, ds, at, d);
    SetRemembers(entries, ds, before, d);
    if |longer| > KEYS_HELD {
      OldestIsOld(longer, ds + [d], newAt, d.time);
      EvictRemembers(longer, ds + [d], d.time);
      EvictStands(longer, ds + [d], newAt);
      newAt := newAt[1..];
    }
  }

  lemma OneMoreDelivery(ds: seq<Delivery>, d: Delivery, k: nat)
    requires AllSingle(ds) && d.event.Single? && InOrder(ds, d.time) && Spread(ds) && NoRepeat(ds)
    requires k <= |ds| < k + DELIVERIES_PER_WINDOW
    requires forall i | 0 <= i < k :: ds[i].time + WINDOW_MILLISECONDS <= d.time
    requires forall i | 0 <= i < |ds| && KeyOf(ds[i]) == KeyOf(d) :: ds[i].time + WINDOW_MILLISECONDS <= d.time
    ensures AllSingle(ds + [d]) && InOrder(ds + [d], d.time) && Spread(ds + [d]) && NoRepeat(ds + [d])
    ensures RecentAreLast(Times(ds)[k..] + [d.time], ds + [d], k, d.time)
  {
    hide DeduplicationKey;
    assert Times(ds + [d]) == Times(ds) + [d.time];
    assert Times(ds + [d])[k..] == Times(ds)[k..] + [d.time];
  }

  lemma KeyOfSingle(d: Delivery, a: Raised)
    requires d.event.Single? && d.event.raised == a
    ensures KeyOf(d) == DeduplicationKey(a)
  {
  }

  /** One alarm more keeps the state sound. */
  lemma StepIsSound(l: Limiter, ds: seq<Delivery>, before: int, k: nat, at: seq<nat>, a: Raised, now: int)
    returns (newK: nat, newAt: seq<nat>)
    requires Sound(l, ds, before, k, at) && before <= now
    ensures var (after, event) := Next(l, a, now);
            Sound(after, if event.Some? && event.value.Single? then ds + [Delivery(now, event.value)] else ds, now, newK, newAt)
  {
    hide DeduplicationKey, KeyOf, DistinctKeys, Stands, Remembers, Spread, NoRepeat, Remembered;
    LaterIsSound(l, ds, before, k, at, now);
    newK, newAt := k, at;
    var key := DeduplicationKey(a);
    if !IsRepeat(l, key, now) {
      newK := RecentOfLast(Times(ds), k, now);
      if |ds| - newK < DELIVERIES_PER_WINDOW {
        var d := Delivery(now, Single(a, l.suppressed));
        KeyOfSingle(d, a);
        UnrepeatedIsOld(l, ds, now, key, now);
        OneMoreDelivery(ds, d, newK);
        newAt := RememberedIsSound(l.deliveredAt, ds, at, now, d);
      }
    }
  }

  /** After every run under a clock that never goes back, the state is sound. */
  lemma {:induction false} RunIsSound(start: int, calls: seq<Call>) returns (k: nat, at: seq<nat>)
    requires Ordered(start, calls)
    ensures Sound(Run(start, calls).0, Singles(Run(start, calls).1), CallsEnd(start, calls), k, at)
  {
    hide Sound, Next;
    if calls == [] {
      k, at := 0, [];
      StartIsSound(start);
    } else {
      var before, last := calls[..|calls| - 1], calls[|calls| - 1];
      k, at := RunIsSound(start, before);
      var (l, log) := Run(start, before);
      k, at := StepIsSound(l, Singles(log), CallsEnd(start, before), k, at, last.raised, last.now);
      var event := Next(l, last.raised, last.now).1;
      if event.Some? {
        LogGrows(log, Delivery(last.now, event.value));
      }
    }
  }

  lemma StartIsSound(start: int)
    ensures Sound(Started(start), [], start, 0, [])
  {
  }

  ghost predicate AggregatesApart(ts: seq<int>, windowStart: int, now: int) {
    && windowStart <= now && (forall i | 0 <= i < |ts| :: ts[i] <= windowStart)
    && forall i, j | 0 <= i < j < |ts| :: ts[i] + WINDOW_MILLISECONDS <= ts[j]
  }

  lemma StepAggregates(l: Limiter, ts: seq<int>, before: int, a: Raised, now: int)
    requires AggregatesApart(ts, l.aggregateWindowStart, before) && before <= now
    ensures var (after, event) := Next(l, a, now);
            AggregatesApart(if event.Some? && event.value.Aggregate? then ts + [now] else ts, after.aggregateWindowStart, now)
  {
    hide Recent, Remembered, IsRepeat, DeduplicationKey;
  }

  lemma {:induction false} RunAggregates(start: int, calls: seq<Call>)
    requires Ordered(start, calls)
    ensures AggregatesApart(Aggregates(Run(start, calls).1), Run(start, calls).0.aggregateWindowStart, CallsEnd(start, calls))
  {
    hide Next, AggregatesApart;
    if calls == [] {
      NoAggregates(start);
    } else {
      var before, last := calls[..|calls| - 1], calls[|calls| - 1];
      RunAggregates(start, before);
      var (l, log) := Run(start, before);
      StepAggregates(l, Aggregates(log), CallsEnd(start, before), last.raised, last.now);
      var event := Next(l, last.raised, last.now).1;
      if event.Some? {
        LogGrows(log, Delivery(last.now, event.value));
      }
    }
  }

  lemma NoAggregates(start: int)
    ensures AggregatesApart([], start, start)
  {
  }

  /** Under a clock that never goes back, whatever is raised: fewer than a hundred and one single alarms and
      one aggregate in any window, and no account, occasion and reason twice. */
  lemma FloodIsBounded(start: int, calls: seq<Call>)
    requires Ordered(start, calls)
    ensures var singles := Singles(Run(start, calls).1);
            && (forall i, j | 0 <= i <= j < |singles| && singles[j].time < singles[i].time + WINDOW_MILLISECONDS ::
                  j - i < DELIVERIES_PER_WINDOW)
            && forall i, j | 0 <= i < j < |singles| && singles[i].event.raised == singles[j].event.raised ::
                 singles[i].time + WINDOW_MILLISECONDS <= singles[j].time
    ensures var aggregates := Aggregates(Run(start, calls).1);
            forall i, j | 0 <= i < j < |aggregates| :: aggregates[i] + WINDOW_MILLISECONDS <= aggregates[j]
  {
    hide Run, DeduplicationKey;
    var k, at := RunIsSound(start, calls);
    RunAggregates(start, calls);
  }

  lemma RepeatIsRecent(l: Limiter, ds: seq<Delivery>, at: seq<nat>, a: Raised, now: int)
    requires AllSingle(ds) && Stands(l.deliveredAt, ds, at) && IsRepeat(l, DeduplicationKey(a), now)
    ensures exists i | 0 <= i < |ds| :: ds[i].event.raised == a && now < ds[i].time + WINDOW_MILLISECONDS
  {
    hide DeduplicationKey;
    var e := EntryOf(l.deliveredAt, DeduplicationKey(a));
    var d := ds[at[e]];
    assert l.deliveredAt[e] == Entry(KeyOf(d), d.time);
    KeysApart(d.event.raised, a);
  }

  lemma FullIsRecent(recent: seq<int>, ds: seq<Delivery>, k: nat, before: int, now: int)
    requires InOrder(ds, before) && RecentAreLast(recent, ds, k, before) && |Recent(recent, now)| >= DELIVERIES_PER_WINDOW
    ensures |ds| >= DELIVERIES_PER_WINDOW && now < ds[|ds| - DELIVERIES_PER_WINDOW].time + WINDOW_MILLISECONDS
  {
    var m := RecentOfLast(Times(ds), k, now);
    RecentAreRecent(recent, now);
    assert m == |ds| - DELIVERIES_PER_WINDOW;
    assert Recent(recent, now)[0] == ds[m].time;
  }

  /** An alarm is held back only within a window of its own delivery or of a hundred deliveries. */
  lemma HeldBackOnlyWhenDue(start: int, calls: seq<Call>, a: Raised, now: int)
    requires Ordered(start, calls)
    requires var event := Next(Run(start, calls).0, a, now).1; event.None? || event.value.Aggregate?
    ensures var singles := Singles(Run(start, calls).1);
            || (exists i | 0 <= i < |singles| :: singles[i].event.raised == a && now < singles[i].time + WINDOW_MILLISECONDS)
            || (|singles| >= DELIVERIES_PER_WINDOW
                && now < singles[|singles| - DELIVERIES_PER_WINDOW].time + WINDOW_MILLISECONDS)
  {
    hide Run, DeduplicationKey, Spread, NoRepeat, Remembers, Stands, IsRepeat, InOrder, RecentAreLast, AllSingle;
    var k, at := RunIsSound(start, calls);
    var l, ds := Run(start, calls).0, Singles(Run(start, calls).1);
    if IsRepeat(l, DeduplicationKey(a), now) {
      RepeatIsRecent(l, ds, at, a, now);
    } else {
      FullIsRecent(l.recentDeliveries, ds, k, CallsEnd(start, calls), now);
    }
  }

  // ---- what the next alarm comes to, told by what was delivered

  /** When the last aggregate was handed over, or the start. */
  function LastAggregate(start: int, log: seq<Delivery>): int {
    var ts := Aggregates(log);
    if ts == [] then start else ts[|ts| - 1]
  }

  lemma {:induction false} WindowOpensWithTheLast(start: int, calls: seq<Call>)
    ensures Run(start, calls).0.aggregateWindowStart == LastAggregate(start, Run(start, calls).1)
  {
    hide Recent, Remembered, IsRepeat, DeduplicationKey;
    if calls != [] {
      var before, last := calls[..|calls| - 1], calls[|calls| - 1];
      WindowOpensWithTheLast(start, before);
      var (l, log) := Run(start, before);
      var event := Next(l, last.raised, last.now).1;
      if event.Some? {
        LogGrows(log, Delivery(last.now, event.value));
      }
    }
  }

  /** This alarm was delivered within a window before now. */
  ghost predicate DeliveredLately(singles: seq<Delivery>, a: Raised, now: int) {
    exists i | 0 <= i < |singles| ::
      singles[i].event.Single? && singles[i].event.raised == a && now < singles[i].time + WINDOW_MILLISECONDS
  }

  /** A hundred alarms were delivered within a window before now. */
  predicate FullLately(singles: seq<Delivery>, now: int) {
    && |singles| >= DELIVERIES_PER_WINDOW
    && now < singles[|singles| - DELIVERIES_PER_WINDOW].time + WINDOW_MILLISECONDS
  }

  lemma LatelyIsRepeat(l: Limiter, ds: seq<Delivery>, before: int, a: Raised, now: int)
    requires AllSingle(ds) && DistinctKeys(l.deliveredAt) && Remembers(l.deliveredAt, ds, before) && before <= now
    requires DeliveredLately(ds, a, now)
    ensures IsRepeat(l, DeduplicationKey(a), now)
  {
    var i :| 0 <= i < |ds| && ds[i].event.raised == a && now < ds[i].time + WINDOW_MILLISECONDS;
    KeyOfSingle(ds[i], a);
    if !IsRepeat(l, DeduplicationKey(a), now) {
      hide DeduplicationKey, IsRepeat, Remembers, DistinctKeys;
      UnrepeatedIsOld(l, ds, before, DeduplicationKey(a), now);
      assert false;
    }
  }

  lemma RecentCount(recent: seq<int>, ds: seq<Delivery>, k: nat, before: int, now: int)
    requires InOrder(ds, before) && RecentAreLast(recent, ds, k, before) && before <= now
    ensures FullLately(ds, now) <==> |Recent(recent, now)| >= DELIVERIES_PER_WINDOW
  {
    var m := RecentOfLast(Times(ds), k, now);
    RecentAreRecent(recent, now);
    if |Recent(recent, now)| >= DELIVERIES_PER_WINDOW {
      FullIsRecent(recent, ds, k, before, now);
    }
    if FullLately(ds, now) {
      var j := |ds| - DELIVERIES_PER_WINDOW;
      assert k <= j;
      assert m <= j;
    }
  }

  /** Over every run under a clock that never goes back: the next alarm is delivered by itself exactly where
      it was not delivered within a window and no hundred others were; a repeated one is reported at once
      in an aggregate exactly where the last aggregate is a window ago; everything else is counted. */
  lemma NextExactly(start: int, calls: seq<Call>, a: Raised, now: int)
    requires Ordered(start, calls) && CallsEnd(start, calls) <= now
    ensures var (l, log) := Run(start, calls);
            var (after, event) := Next(l, a, now);
            var repeated, full := DeliveredLately(Singles(log), a, now), FullLately(Singles(log), now);
            var due := LastAggregate(start, log) + WINDOW_MILLISECONDS <= now;
            && event == (if repeated then if due then Some(Aggregate(l.suppressed + 1)) else None
                         else if full then None else Some(Single(a, l.suppressed)))
            && after.suppressed == (if event.None? then l.suppressed + 1 else 0)
  {
    hide Run, DeduplicationKey, Spread, NoRepeat, Remembers, Stands, IsRepeat, InOrder, RecentAreLast, AllSingle, DistinctKeys;
    hide FullLately, DeliveredLately, Recent, LastAggregate;
    var k, at := RunIsSound(start, calls);
    WindowOpensWithTheLast(start, calls);
    var l, ds := Run(start, calls).0, Singles(Run(start, calls).1);
    var end := CallsEnd(start, calls);
    RecentCount(l.recentDeliveries, ds, k, end, now);
    if DeliveredLately(ds, a, now) {
      LatelyIsRepeat(l, ds, end, a, now);
    }
    if IsRepeat(l, DeduplicationKey(a), now) {
      RepeatWasLately(l, ds, at, a, now);
    }
  }

  lemma RepeatWasLately(l: Limiter, ds: seq<Delivery>, at: seq<nat>, a: Raised, now: int)
    requires AllSingle(ds) && Stands(l.deliveredAt, ds, at) && IsRepeat(l, DeduplicationKey(a), now)
    ensures DeliveredLately(ds, a, now)
  {
    RepeatIsRecent(l, ds, at, a, now);
  }

  lemma {:induction false} RecentAreRecent(ts: seq<int>, now: int)
    ensures forall i | 0 <= i < |Recent(ts, now)| :: now < Recent(ts, now)[i] + WINDOW_MILLISECONDS
  {
    if ts != [] {
      RecentAreRecent(ts[1..], now);
    }
  }
}
