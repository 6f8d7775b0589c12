/** The semaphore over key derivations: a counted limit, a queue, and a wait limit kept by timers. */
module Semaphore {
  import opened Options
  import opened Sequences

  datatype Waiter = Waiter(id: nat, queuedAt: real)

  /** When a caller that asked at queuedAt was let in or refused. */
  datatype Outcome = Outcome(id: nat, queuedAt: real, at: real)

  datatype Limits = Limits(places: nat, wait: real)

  /** arrivals numbers the callers in the order they ask; armed holds the waiters whose timer is set. */
  datatype State = State(
    inFlight: int, peakInFlight: int, waiting: seq<Waiter>, armed: set<Waiter>,
    arrivals: nat, granted: seq<Outcome>, refused: seq<Outcome>, left: nat)

  const INITIAL := State(0, 0, [], {}, 0, [], [], 0)

  predicate HasWaitedOut(w: Waiter, now: real, limits: Limits) {
    now - w.queuedAt >= limits.wait
  }

  function OutcomeOf(w: Waiter, now: real): Outcome {
    Outcome(w.id, w.queuedAt, now)
  }

  function Entered(s: State): State {
    s.(inFlight := s.inFlight + 1,
       peakInFlight := if s.inFlight + 1 > s.peakInFlight then s.inFlight + 1 else s.peakInFlight)
  }

  function Acquired(s: State, limits: Limits, now: real): State {
    var w := Waiter(s.arrivals, now);
    if s.inFlight < limits.places
    then Entered(s).(arrivals := s.arrivals + 1, granted := s.granted + [OutcomeOf(w, now)])
    else s.(arrivals := s.arrivals + 1, waiting := s.waiting + [w], armed := s.armed + {w})
  }

  /** The free place goes to the first waiter still within its limit; those before it are refused. The
      clock gives its i-th reading of this hand-over. */
  function HandedOver(s: State, limits: Limits, clock: nat -> real, i: nat): State
    decreases |s.waiting|
  {
    if s.waiting == [] then s
    else
      var w := s.waiting[0];
      var taken := s.(waiting := s.waiting[1..], armed := s.armed - {w});
      if HasWaitedOut(w, clock(i), limits)
      then HandedOver(taken.(refused := s.refused + [OutcomeOf(w, clock(i))]), limits, clock, i + 1)
      else Entered(taken).(granted := s.granted + [OutcomeOf(w, clock(i))])
  }

  function Left(s: State, limits: Limits, clock: nat -> real): State {
    HandedOver(s.(inFlight := s.inFlight - 1, left := s.left + 1), limits, clock, 0)
  }

  function PlaceOf(waiting: seq<Waiter>, id: nat): (k: nat)
    ensures k <= |waiting| && (k < |waiting| ==> waiting[k].id == id)
    ensures forall j | 0 <= j < k :: waiting[j].id != id
  {
    if waiting == [] || waiting[0].id == id then 0 else 1 + PlaceOf(waiting[1..], id)
  }

  /** A timer that comes due before the wait has is set again; otherwise its waiter is refused. */
  function TimerRan(s: State, limits: Limits, w: Waiter, now: real): State {
    if !HasWaitedOut(w, now, limits) then s.(armed := s.armed + {w})
    else
      var k := PlaceOf(s.waiting, w.id);
      var waiting := if k < |s.waiting| then s.waiting[..k] + s.waiting[k + 1..] else s.waiting;
      s.(waiting := waiting, armed := s.armed - {w}, refused := s.refused + [OutcomeOf(w, now)])
  }

  // ---- the semaphore itself

  class KdfSemaphore {
    const limits: Limits
    var inFlight: int
    var peakInFlight: int
    var waiting: seq<Waiter>
    var armed: set<Waiter>
    var arrivals: nat
    ghost var granted: seq<Outcome>
    ghost var refused: seq<Outcome>
    ghost var left: nat

    constructor (limits: Limits)
      ensures this.limits == limits && Now() == INITIAL
    {
      this.limits := limits;
      inFlight, peakInFlight, waiting, armed, arrivals := 0, 0, [], {}, 0;
      granted, refused, left := [], [], 0;
    }

    ghost function Now(): State
      reads this
    {
      State(inFlight, peakInFlight, waiting, armed, arrivals, granted, refused, left)
    }

    method Enter()
      modifies this`inFlight, this`peakInFlight
      ensures Now() == Entered(old(Now()))
    {
      inFlight := inFlight + 1;
      peakInFlight := if inFlight > peakInFlight then inFlight else peakInFlight;
    }

    /** The promise of a waiter rejects, or resolves. */
    ghost method Refuse(w: Waiter, now: real)
      modifies this`refused
      ensures refused == old(refused) + [OutcomeOf(w, now)]
    {
      refused := refused + [OutcomeOf(w, now)];
    }

    ghost method Grant(w: Waiter, now: real)
      modifies this`granted
      ensures granted == old(granted) + [OutcomeOf(w, now)]
    {
      granted := granted + [OutcomeOf(w, now)];
    }

    method Acquire(now: real) returns (immediate: bool)
      modifies this
      ensures Now() == Acquired(old(Now()), limits, now)
      ensures immediate <==> old(inFlight) < limits.places
    {
      var w := Waiter(arrivals, now);
      arrivals := arrivals + 1;
      immediate := inFlight < limits.places;
      if immediate {
        Enter();
        Grant(w, now);
      } else {
        waiting := waiting + [w];
        armed := armed + {w};
      }
    }

    method Shift() returns (next: Option<Waiter>)
      modifies this`waiting
      ensures if old(waiting) == [] then next.None? && waiting == []
              else next == Some(old(waiting)[0]) && waiting == old(waiting)[1..]
    {
      if waiting == [] {
        return None;
      }
      next := Some(waiting[0]);
      waiting := waiting[1..];
    }

    method Leave(clock: nat -> real)
      modifies this
      ensures Now() == Left(old(Now()), limits, clock)
    {
      hide HandedOver, HasWaitedOut, Entered;
      inFlight := inFlight - 1;
      left := left + 1;
      ghost var from, pending := Now(), Now();
      var i := 0;
      var next := Shift();
      while next.Some? && HasWaitedOut(next.value, clock(i), limits)
        invariant HandedOver(from, limits, clock, 0) == HandedOver(pending, limits, clock, i)
        invariant pending == Now().(waiting := (if next.Some? then [next.value] else []) + waiting)
        invariant next.None? ==> waiting == []
        decreases |waiting| + (if next.Some? then 1 else 0)
      {
        HandOverStep(pending, limits, clock, i);
        armed := armed - {next.value};
        Refuse(next.value, clock(i));
        pending := FirstRefused(pending, clock(i));
        assert pending == Now();
        next := Shift();
        i := i + 1;
      }
      if next.Some? {
        HandOverStep(pending, limits, clock, i);
        armed := armed - {next.value};
        Enter();
        Grant(next.value, clock(i));
        FirstGrantedIs(pending, Now(), next.value, clock(i));
      } else {
        HandOverNothing(pending, limits, clock, i);
      }
    }

    method RunTimer(w: Waiter, now: real)
      modifies this
      ensures Now() == TimerRan(old(Now()), limits, w, now)
    {
      armed := armed - {w};
      if !HasWaitedOut(w, now, limits) {
        armed := armed + {w};
        return;
      }
      var queued := PlaceOf(waiting, w.id);
      if queued < |waiting| {
        waiting := waiting[..queued] + waiting[queued + 1..];
      }
      Refuse(w, now);
    }
  }

  // ---- runs

  datatype Step = Acquire(now: real) | Leave(clock: nat -> real) | Timer(waiter: Waiter, now: real)

  /** Only a caller let in leaves, and once; only a timer that is set comes due. */
  predicate Enabled(s: State, step: Step) {
    match step
    case Acquire(_) => true
    case Leave(_) => s.left < |s.granted|
    case Timer(w, _) => w in s.armed
  }

  function Apply(s: State, limits: Limits, step: Step): State {
    match step
    case Acquire(now) => Acquired(s, limits, now)
    case Leave(clock) => Left(s, limits, clock)
    case Timer(w, now) => TimerRan(s, limits, w, now)
  }

  function After(limits: Limits, steps: seq<Step>): State {
    if steps == [] then INITIAL else Apply(After(limits, steps[..|steps| - 1]), limits, steps[|steps| - 1])
  }

  /** Every interleaving of callers, leavers and timers. */
  ghost predicate Legal(limits: Limits, steps: seq<Step>) {
    steps != [] ==>
      Legal(limits, steps[..|steps| - 1]) && Enabled(After(limits, steps[..|steps| - 1]), steps[|steps| - 1])
  }

  // ---- what every run keeps

  /** No more callers than places, none lost, and nobody waits while a place is free. */
  predicate PlacesKept(s: State, limits: Limits) {
    && 0 <= s.inFlight <= s.peakInFlight <= limits.places && s.inFlight == |s.granted| - s.left
    && (s.waiting != [] ==> s.inFlight == limits.places)
  }

  function Ids(os: seq<Outcome>): (ids: seq<nat>)
    ensures |ids| == |os| && forall i | 0 <= i < |os| :: ids[i] == os[i].id
  {
    seq(|os|, i requires 0 <= i < |os| => os[i].id)
  }

  function WaitingIds(ws: seq<Waiter>): (ids: seq<nat>)
    ensures |ids| == |ws| && forall i | 0 <= i < |ws| :: ids[i] == ws[i].id
  {
    seq(|ws|, i requires 0 <= i < |ws| => ws[i].id)
  }

  /** Every caller, once for each time it was let in, refused or queued. */
  function Accounted(s: State): multiset<nat> {
    multiset(Ids(s.granted)) + multiset(Ids(s.refused)) + multiset(WaitingIds(s.waiting))
  }

  ghost predicate EachOnce(s: State) {
    forall id: nat :: Accounted(s)[id] == if id < s.arrivals then 1 else 0
  }

  predicate Rising(ids: seq<nat>) {
    forall i, j | 0 <= i < j < |ids| :: ids[i] < ids[j]
  }

  /** Let in as they came, with the waiters behind in the same order. */
  predicate InOrder(s: State) {
    Rising(Ids(s.granted) + WaitingIds(s.waiting)) && Below(Ids(s.granted) + WaitingIds(s.waiting), s.arrivals)
  }

  predicate Below(ids: seq<nat>, n: nat) {
    forall i | 0 <= i < |ids| :: ids[i] < n
  }

  ghost predicate TimersSet(s: State) {
    forall w :: w in s.armed <==> w in s.waiting
  }

  /** Let in at once or within the wait limit, and refused only after it. */
  predicate WaitsKept(s: State, limits: Limits) {
    && (forall i | 0 <= i < |s.granted| :: s.granted[i].at == s.granted[i].queuedAt
                                            || s.granted[i].at - s.granted[i].queuedAt < limits.wait)
    && forall i | 0 <= i < |s.refused| :: s.refused[i].at - s.refused[i].queuedAt >= limits.wait
  }

  lemma OneMoreId(os: seq<Outcome>, o: Outcome)
    ensures Ids(os + [o]) == Ids(os) + [o.id]
  {
  }

  lemma OneMoreWaiting(ws: seq<Waiter>, w: Waiter)
    ensures WaitingIds(ws + [w]) == WaitingIds(ws) + [w.id]
  {
  }

  lemma OneLessWaiting(ws: seq<Waiter>, k: nat)
    requires k < |ws|
    ensures WaitingIds(ws[..k] + ws[k + 1..]) == WaitingIds(ws)[..k] + WaitingIds(ws)[k + 1..]
    ensures multiset(WaitingIds(ws)) == multiset(WaitingIds(ws[..k] + ws[k + 1..])) + multiset{ws[k].id}
  {
    var ids := WaitingIds(ws);
    assert ids == ids[..k] + [ids[k]] + ids[k + 1..];
  }

  // ---- a caller asks

  lemma AcquiredKeepsPlaces(s: State, limits: Limits, now: real)
    requires PlacesKept(s, limits)
    ensures PlacesKept(Acquired(s, limits, now), limits)
  {
  }

  lemma AcquiredKeepsOrder(s: State, limits: Limits, now: real)
    requires PlacesKept(s, limits) && InOrder(s)
    ensures InOrder(Acquired(s, limits, now))
  {
    OneMoreId(s.granted, Outcome(s.arrivals, now, now));
    OneMoreWaiting(s.waiting, Waiter(s.arrivals, now));
    var ids, after := Ids(s.granted) + WaitingIds(s.waiting), Acquired(s, limits, now);
    assert Ids(after.granted) + WaitingIds(after.waiting) == ids + [s.arrivals];
  }

  lemma AcquiredKeepsAccounts(s: State, limits: Limits, now: real)
    requires EachOnce(s)
    ensures EachOnce(Acquired(s, limits, now))
  {
    OneMoreId(s.granted, Outcome(s.arrivals, now, now));
    OneMoreWaiting(s.waiting, Waiter(s.arrivals, now));
    assert Accounted(Acquired(s, limits, now)) == Accounted(s) + multiset{s.arrivals};
  }

  // ---- a caller leaves

  lemma {:induction false} HandedOverKeepsPlaces(s: State, limits: Limits, clock: nat -> real, i: nat)
    requires 0 <= s.inFlight < limits.places && s.inFlight <= s.peakInFlight <= limits.places
    requires s.inFlight == |s.granted| - s.left && (s.waiting != [] ==> s.inFlight == limits.places - 1)
    ensures PlacesKept(HandedOver(s, limits, clock, i), limits)
    decreases |s.waiting|
  {
    hide HasWaitedOut;
    if s.waiting != [] {
      var w := s.waiting[0];
      if HasWaitedOut(w, clock(i), limits) {
        HandedOverKeepsPlaces(
          s.(waiting := s.waiting[1..], armed := s.armed - {w}, refused := s.refused + [OutcomeOf(w, clock(i))]),
          limits, clock, i + 1);
      }
    }
  }

  lemma LeftKeepsPlaces(s: State, limits: Limits, clock: nat -> real)
    requires PlacesKept(s, limits) && s.left < |s.granted|
    ensures PlacesKept(Left(s, limits, clock), limits)
  {
    HandedOverKeepsPlaces(s.(inFlight := s.inFlight - 1, left := s.left + 1), limits, clock, 0);
  }

  /** The first waiter refused. */
  function FirstRefused(s: State, now: real): State
    requires s.waiting != []
  {
    var w := s.waiting[0];
    s.(waiting := s.waiting[1..], armed := s.armed - {w}, refused := s.refused + [OutcomeOf(w, now)])
  }

  function FirstGranted(s: State, now: real): State
    requires s.waiting != []
  {
    var w := s.waiting[0];
    Entered(s.(waiting := s.waiting[1..], armed := s.armed - {w})).(granted := s.granted + [OutcomeOf(w, now)])
  }

  lemma HandOverStep(s: State, limits: Limits, clock: nat -> real, i: nat)
    requires s.waiting != []
    ensures HandedOver(s, limits, clock, i)
      == if HasWaitedOut(s.waiting[0], clock(i), limits)
         then HandedOver(FirstRefused(s, clock(i)), limits, clock, i + 1)
         else FirstGranted(s, clock(i))
  {
  }

  lemma FirstGrantedIs(s: State, after: State, w: Waiter, now: real)
    requires s.waiting != [] && s.waiting[0] == w
    requires after == Entered(s.(waiting := s.waiting[1..], armed := s.armed - {w})).(granted := s.granted + [OutcomeOf(w, now)])
    ensures after == FirstGranted(s, now)
  {
  }

  lemma HandOverNothing(s: State, limits: Limits, clock: nat -> real, i: nat)
    requires s.waiting == []
    ensures HandedOver(s, limits, clock, i) == s
  {
  }

  ghost predicate Books(s: State) {
    EachOnce(s) && InOrder(s) && TimersSet(s)
  }

  lemma FirstOff(s: State)
    requires s.waiting != []
    ensures WaitingIds(s.waiting) == [s.waiting[0].id] + WaitingIds(s.waiting[1..])
  {
  }

  lemma FirstRefusedKeepsBooks(s: State, now: real)
    requires s.waiting != [] && Books(s)
    ensures Books(FirstRefused(s, now))
  {
    hide EachOnce, InOrder;
    var after := FirstRefused(s, now);
    assert s.waiting[..0] + s.waiting[1..] == s.waiting[1..];
    TimerKeepsAccounts(s, s.waiting[0], now, 0, after);
    TimerKeepsOrder(s, 0, after);
    TakeOffTimer(s, 0);
  }

  lemma FirstGrantedKeepsAccounts(s: State, now: real)
    requires s.waiting != [] && EachOnce(s)
    ensures EachOnce(FirstGranted(s, now))
  {
    FirstOff(s);
    OneMoreId(s.granted, OutcomeOf(s.waiting[0], now));
    assert Accounted(FirstGranted(s, now)) == Accounted(s);
  }

  lemma SameIdsSameOrder(s: State, after: State)
    requires InOrder(s) && after.arrivals == s.arrivals
    requires Ids(after.granted) + WaitingIds(after.waiting) == Ids(s.granted) + WaitingIds(s.waiting)
    ensures InOrder(after)
  {
  }

  lemma FirstGrantedKeepsOrder(s: State, now: real)
    requires s.waiting != [] && InOrder(s)
    ensures InOrder(FirstGranted(s, now))
  {
    hide InOrder, Ids, WaitingIds;
    var after, o := FirstGranted(s, now), OutcomeOf(s.waiting[0], now);
    assert after.granted == s.granted + [o] && after.waiting == s.waiting[1..] && after.arrivals == s.arrivals;
    FirstOff(s);
    OneMoreId(s.granted, o);
    Associate(Ids(s.granted), [o.id], WaitingIds(s.waiting[1..]));
    SameIdsSameOrder(s, after);
  }

  lemma FirstGrantedKeepsBooks(s: State, now: real)
    requires s.waiting != [] && Books(s)
    ensures Books(FirstGranted(s, now))
  {
    hide EachOnce, InOrder;
    FirstGrantedKeepsAccounts(s, now);
    FirstGrantedKeepsOrder(s, now);
    assert s.waiting[..0] + s.waiting[1..] == s.waiting[1..];
    TakeOffTimer(s, 0);
  }

  lemma RisingWithout(a: seq<nat>, b: seq<nat>, c: seq<nat>, n: nat)
    requires Rising(a + b + c) && Below(a + b + c, n)
    ensures Rising(a + c) && Below(a + c, n)
  {
    var all := a + b + c;
    assert forall i | 0 <= i < |a + c| :: (a + c)[i] == all[if i < |a| then i else i + |b|];
  }

  /** Taking the waiter at k off the queue takes exactly its timer off, for no two are the same. */
  lemma TakeOffTimer(s: State, k: nat)
    requires k < |s.waiting| && InOrder(s) && TimersSet(s)
    ensures forall w :: w in s.armed - {s.waiting[k]} <==> w in s.waiting[..k] + s.waiting[k + 1..]
  {
    var rest := s.waiting[..k] + s.waiting[k + 1..];
    var ids := Ids(s.granted) + WaitingIds(s.waiting);
    forall j | 0 <= j < |s.waiting| && j != k
      ensures s.waiting[j] != s.waiting[k]
    {
      assert ids[|s.granted| + j] == s.waiting[j].id && ids[|s.granted| + k] == s.waiting[k].id;
    }
    assert forall j | 0 <= j < |rest| :: rest[j] == s.waiting[if j < k then j else j + 1];
    forall w | w in s.waiting && w != s.waiting[k]
      ensures w in rest
    {
      var j :| 0 <= j < |s.waiting| && s.waiting[j] == w;
      assert rest[if j < k then j else j - 1] == w;
    }
  }

  lemma {:induction false} HandedOverKeepsBooks(s: State, limits: Limits, clock: nat -> real, i: nat)
    requires Books(s)
    ensures Books(HandedOver(s, limits, clock, i))
    decreases |s.waiting|
  {
    hide Books, HasWaitedOut;
    if s.waiting != [] {
      HandOverStep(s, limits, clock, i);
      if HasWaitedOut(s.waiting[0], clock(i), limits) {
        FirstRefusedKeepsBooks(s, clock(i));
        HandedOverKeepsBooks(FirstRefused(s, clock(i)), limits, clock, i + 1);
      } else {
        FirstGrantedKeepsBooks(s, clock(i));
      }
    }
  }

  lemma {:induction false} HandedOverKeepsWaits(s: State, limits: Limits, clock: nat -> real, i: nat)
    requires WaitsKept(s, limits)
    ensures WaitsKept(HandedOver(s, limits, clock, i), limits)
    decreases |s.waiting|
  {
    if s.waiting != [] {
      HandOverStep(s, limits, clock, i);
      if HasWaitedOut(s.waiting[0], clock(i), limits) {
        HandedOverKeepsWaits(FirstRefused(s, clock(i)), limits, clock, i + 1);
      }
    }
  }

  // ---- a timer comes due

  lemma PlaceOfWaiter(s: State, k: nat)
    requires k < |s.waiting| && InOrder(s)
    ensures PlaceOf(s.waiting, s.waiting[k].id) == k
  {
    var j := PlaceOf(s.waiting, s.waiting[k].id);
    var ids := Ids(s.granted) + WaitingIds(s.waiting);
    assert j < |s.waiting|;
    assert ids[|s.granted| + j] == s.waiting[j].id && ids[|s.granted| + k] == s.waiting[k].id;
  }

  lemma TimerKeepsBooks(s: State, limits: Limits, w: Waiter, now: real)
    requires Books(s) && w in s.armed
    ensures Books(TimerRan(s, limits, w, now))
  {
    if HasWaitedOut(w, now, limits) {
      var k :| 0 <= k < |s.waiting| && s.waiting[k] == w;
      PlaceOfWaiter(s, k);
      var after := TimerRan(s, limits, w, now);
      TimerKeepsAccounts(s, w, now, k, after);
      TimerKeepsOrder(s, k, after);
      TakeOffTimer(s, k);
    } else {
      assert s.armed + {w} == s.armed;
    }
  }

  lemma TimerKeepsAccounts(s: State, w: Waiter, now: real, k: nat, after: State)
    requires k < |s.waiting| && s.waiting[k] == w && EachOnce(s)
    requires after.granted == s.granted && after.refused == s.refused + [OutcomeOf(w, now)] && after.arrivals == s.arrivals
    requires after.waiting == s.waiting[..k] + s.waiting[k + 1..]
    ensures EachOnce(after)
  {
    OneLessWaiting(s.waiting, k);
    OneMoreId(s.refused, OutcomeOf(w, now));
    assert Accounted(after) == Accounted(s);
  }

  lemma TimerKeepsOrder(s: State, k: nat, after: State)
    requires k < |s.waiting| && InOrder(s) && after.granted == s.granted && after.arrivals == s.arrivals
    requires after.waiting == s.waiting[..k] + s.waiting[k + 1..]
    ensures InOrder(after)
  {
    OneLessWaiting(s.waiting, k);
    var ids := WaitingIds(s.waiting);
    assert Ids(s.granted) + ids == Ids(s.granted) + ids[..k] + [ids[k]] + ids[k + 1..];
    RisingWithout(Ids(s.granted) + ids[..k], [ids[k]], ids[k + 1..], s.arrivals);
    assert Ids(s.granted) + (ids[..k] + ids[k + 1..]) == Ids(s.granted) + ids[..k] + ids[k + 1..];
  }

  lemma AcquiredKeepsBooks(s: State, limits: Limits, now: real)
    requires Books(s) && PlacesKept(s, limits)
    ensures Books(Acquired(s, limits, now))
  {
    AcquiredKeepsOrder(s, limits, now);
    AcquiredKeepsAccounts(s, limits, now);
  }

  ghost predicate Kept(s: State, limits: Limits) {
    PlacesKept(s, limits) && Books(s) && WaitsKept(s, limits)
  }

  lemma StepKeeps(s: State, limits: Limits, step: Step)
    requires Kept(s, limits) && Enabled(s, step)
    ensures Kept(Apply(s, limits, step), limits)
  {
    hide Books;
    match step {
      case Acquire(now) => {
        AcquiredKeepsPlaces(s, limits, now);
        AcquiredKeepsBooks(s, limits, now);
      }
      case Leave(clock) => {
        var freed := s.(inFlight := s.inFlight - 1, left := s.left + 1);
        LeftKeepsPlaces(s, limits, clock);
        FreedKeepsBooks(s, freed);
        HandedOverKeepsBooks(freed, limits, clock, 0);
        HandedOverKeepsWaits(freed, limits, clock, 0);
      }
      case Timer(w, now) => {
        TimerKeepsBooks(s, limits, w, now);
        TimerKeepsPlaces(s, limits, w, now);
      }
    }
  }

  lemma FreedKeepsBooks(s: State, freed: State)
    requires Books(s) && freed == s.(inFlight := s.inFlight - 1, left := s.left + 1)
    ensures Books(freed)
  {
    assert Accounted(freed) == Accounted(s);
  }

  lemma TimerKeepsPlaces(s: State, limits: Limits, w: Waiter, now: real)
    requires PlacesKept(s, limits)
    ensures PlacesKept(TimerRan(s, limits, w, now), limits)
  {
  }

  /** Over every interleaving of callers, leavers and timers. */
  lemma {:induction false} RunKeeps(limits: Limits, steps: seq<Step>)
    requires Legal(limits, steps)
    ensures Kept(After(limits, steps), limits)
    decreases |steps|
  {
    hide Kept, Apply, Enabled;
    if steps == [] {
      NothingKept(limits);
    } else {
      RunKeeps(limits, steps[..|steps| - 1]);
      StepKeeps(After(limits, steps[..|steps| - 1]), limits, steps[|steps| - 1]);
    }
  }

  lemma NothingKept(limits: Limits)
    ensures Kept(INITIAL, limits)
  {
  }

  /** What the callers see of it: nobody is let in beyond the places, twice, out of turn, after its wait
      limit or after a refusal; nobody is refused before that limit; nobody waits beside a free place. */
  lemma CallersAreServedInOrder(limits: Limits, steps: seq<Step>)
    requires Legal(limits, steps)
    ensures var s := After(limits, steps);
            && s.inFlight == |s.granted| - s.left <= limits.places && (s.waiting != [] ==> s.inFlight == limits.places)
            && (forall i, j | 0 <= i < j < |s.granted| :: s.granted[i].id < s.granted[j].id)
            && (forall i, j | 0 <= i < |s.granted| && 0 <= j < |s.waiting| :: s.granted[i].id < s.waiting[j].id)
            && (forall i, j | 0 <= i < |s.granted| && 0 <= j < |s.refused| :: s.granted[i].id != s.refused[j].id)
            && (forall i, j | 0 <= i < j < |s.refused| :: s.refused[i].id != s.refused[j].id)
            && (forall i | 0 <= i < |s.granted| && s.granted[i].at != s.granted[i].queuedAt ::
                  s.granted[i].at - s.granted[i].queuedAt < limits.wait)
            && (forall i | 0 <= i < |s.refused| :: s.refused[i].at - s.refused[i].queuedAt >= limits.wait)
    ensures forall id: nat | id < After(limits, steps).arrivals ::
      id in Ids(After(limits, steps).granted) || id in Ids(After(limits, steps).refused)
      || id in WaitingIds(After(limits, steps).waiting)
  {
    hide After, Legal, EachOnce, InOrder, TimersSet;
    RunKeeps(limits, steps);
    OrderMeans(After(limits, steps));
    OnceMeans(After(limits, steps));
    AllMean(After(limits, steps));
  }

  lemma OrderMeans(s: State)
    requires InOrder(s)
    ensures forall i, j | 0 <= i < j < |s.granted| :: s.granted[i].id < s.granted[j].id
    ensures forall i, j | 0 <= i < |s.granted| && 0 <= j < |s.waiting| :: s.granted[i].id < s.waiting[j].id
  {
    var ids := Ids(s.granted) + WaitingIds(s.waiting);
    assert forall i | 0 <= i < |s.granted| :: ids[i] == s.granted[i].id;
    assert forall j | 0 <= j < |s.waiting| :: ids[|s.granted| + j] == s.waiting[j].id;
  }

  lemma AtMostOnce(s: State, id: nat)
    requires EachOnce(s)
    ensures multiset(Ids(s.granted))[id] + multiset(Ids(s.refused))[id] <= 1
  {
    assert Accounted(s)[id] <= 1;
  }

  lemma OnceMeans(s: State)
    requires EachOnce(s)
    ensures forall i, j | 0 <= i < |s.granted| && 0 <= j < |s.refused| :: s.granted[i].id != s.refused[j].id
    ensures forall i, j | 0 <= i < j < |s.refused| :: s.refused[i].id != s.refused[j].id
  {
    hide EachOnce, Accounted;
    forall i, j | 0 <= i < |s.granted| && 0 <= j < |s.refused|
      ensures s.granted[i].id != s.refused[j].id
    {
      AtMostOnce(s, s.granted[i].id);
      assert s.granted[i].id == Ids(s.granted)[i] && s.refused[j].id == Ids(s.refused)[j];
    }
    forall i, j | 0 <= i < j < |s.refused|
      ensures s.refused[i].id != s.refused[j].id
    {
      AtMostOnce(s, s.refused[i].id);
      CountedTwice(Ids(s.refused), i, j);
    }
  }

  lemma AllMean(s: State)
    requires EachOnce(s)
    ensures forall id: nat | id < s.arrivals ::
      id in Ids(s.granted) || id in Ids(s.refused) || id in WaitingIds(s.waiting)
  {
    forall id: nat | id < s.arrivals
      ensures id in Ids(s.granted) || id in Ids(s.refused) || id in WaitingIds(s.waiting)
    {
      assert Accounted(s)[id] == 1;
    }
  }

  lemma CountedTwice(ids: seq<nat>, i: nat, j: nat)
    requires i < j < |ids|
    ensures ids[i] == ids[j] ==> multiset(ids)[ids[i]] >= 2
  {
    assert ids == ids[..j] + [ids[j]] + ids[j + 1..];
    assert ids[i] in ids[..j];
  }
}
