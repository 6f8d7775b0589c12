/** The maintenance pass over every account, page by page in the order of their ids. */
module AccountPaging {
  const ACCOUNT_BATCH := 100
  const FIRST_ACCOUNT := 0

  /** How many ids there are. */
  const ID_COUNT := 0x1_0000_0000_0000_0000_0000_0000_0000_0000

  type Id = id: int | 0 <= id < 0x1_0000_0000_0000_0000_0000_0000_0000_0000

  datatype Outcome = Sealed | Rekeyed | Unchanged | Refused | Gone | Threw

  datatype Report = Report(sealed: nat, rekeyed: nat, refused: nat, kept: nat, refusedIds: seq<Id>)

  /** A report, or the account whose failure ended the pass. */
  datatype Pass = Reported(report: Report) | FailedAt(id: Id)

  predicate Ascending(ids: seq<Id>) {
    forall i, j | 0 <= i < j < |ids| :: ids[i] < ids[j]
  }

  /** The query's answer: the least ids after the given one, at most a batch of them. */
  ghost predicate IsPage(ids: seq<Id>, accounts: set<Id>, after: Id) {
    && Ascending(ids) && |ids| <= ACCOUNT_BATCH
    && (forall i | 0 <= i < |ids| :: ids[i] in accounts && ids[i] > after)
    && forall id | id in accounts && id > after && id !in ids :: |ids| == ACCOUNT_BATCH && id > ids[|ids| - 1]
  }

  function Counted(r: Report, id: Id, outcome: Outcome): Report {
    match outcome
    case Sealed => r.(sealed := r.sealed + 1)
    case Rekeyed => r.(rekeyed := r.rekeyed + 1)
    case Unchanged => r.(kept := r.kept + 1)
    case Refused => r.(refused := r.refused + 1, refusedIds := r.refusedIds + [id])
    case Gone => r
    case Threw => r
  }

  function Total(visited: seq<Id>, outcome: Id -> Outcome): Report {
    if visited == [] then Report(0, 0, 0, 0, [])
    else
      var last := visited[|visited| - 1];
      Counted(Total(visited[..|visited| - 1], outcome), last, outcome(last))
  }

  lemma OneMoreVisited(visited: seq<Id>, id: Id, outcome: Id -> Outcome)
    ensures Total(visited + [id], outcome) == Counted(Total(visited, outcome), id, outcome(id))
  {
    assert (visited + [id])[..|visited|] == visited;
  }

  /** The visited accounts that no count takes: those gone, and one whose failure ended the pass. */
  function Uncounted(visited: seq<Id>, outcome: Id -> Outcome): nat {
    if visited == [] then 0
    else
      var last := outcome(visited[|visited| - 1]);
      Uncounted(visited[..|visited| - 1], outcome) + (if last.Gone? || last.Threw? then 1 else 0)
  }

  lemma {:induction false} CountsAddUp(visited: seq<Id>, outcome: Id -> Outcome)
    ensures var r := Total(visited, outcome);
            r.sealed + r.rekeyed + r.refused + r.kept + Uncounted(visited, outcome) == |visited|
            && |r.refusedIds| == r.refused
  {
    if visited != [] {
      CountsAddUp(visited[..|visited| - 1], outcome);
    }
  }

  /** The visited accounts that came out so, in the order they were visited. */
  function CameOut(visited: seq<Id>, outcome: Id -> Outcome, o: Outcome): seq<Id> {
    if visited == [] then []
    else
      var last := visited[|visited| - 1];
      CameOut(visited[..|visited| - 1], outcome, o) + (if outcome(last) == o then [last] else [])
  }

  /** Each count of the report is the number of accounts that came out that way, and the refused ids are
      those accounts in their order. */
  lemma {:induction false} EachCountIsItsOwn(visited: seq<Id>, outcome: Id -> Outcome)
    ensures var r := Total(visited, outcome);
            && r.sealed == |CameOut(visited, outcome, Sealed)| && r.rekeyed == |CameOut(visited, outcome, Rekeyed)|
            && r.kept == |CameOut(visited, outcome, Unchanged)| && r.refused == |CameOut(visited, outcome, Refused)|
            && r.refusedIds == CameOut(visited, outcome, Refused)
  {
    if visited != [] {
      EachCountIsItsOwn(visited[..|visited| - 1], outcome);
    }
  }

  /** The id of an account that stands in the table at every query made. */
  ghost predicate Stays(accounts: nat -> set<Id>, queries: nat, id: Id) {
    forall k: nat | k < queries :: id in accounts(k)
  }

  /** Every account that was there at every query so far, with an id up to the given one, was visited. */
  ghost predicate Covered(accounts: nat -> set<Id>, queries: nat, upTo: Id, visited: seq<Id>) {
    forall id: Id | Stays(accounts, queries, id) && FIRST_ACCOUNT < id <= upTo :: id in visited
  }

  ghost predicate AllCovered(accounts: nat -> set<Id>, queries: nat, visited: seq<Id>) {
    forall id: Id | Stays(accounts, queries, id) && FIRST_ACCOUNT < id :: id in visited
  }

  lemma PageIsCovered(accounts: nat -> set<Id>, page: nat, before: seq<Id>, after: Id, ids: seq<Id>)
    requires IsPage(ids, accounts(page), after) && Covered(accounts, page, after, before)
    ensures |ids| == ACCOUNT_BATCH ==> Covered(accounts, page + 1, ids[|ids| - 1], before + ids)
    ensures |ids| < ACCOUNT_BATCH ==> AllCovered(accounts, page + 1, before + ids)
  {
    forall id: Id | Stays(accounts, page + 1, id) && FIRST_ACCOUNT < id
        && (|ids| < ACCOUNT_BATCH || id <= ids[|ids| - 1])
      ensures id in before + ids
    {
      assert id in accounts(page);
      if id <= after {
        assert Stays(accounts, page, id);
      }
    }
  }

  ghost predicate Bounded(visited: seq<Id>, upTo: Id) {
    Ascending(visited) && forall i | 0 <= i < |visited| :: FIRST_ACCOUNT < visited[i] <= upTo
  }

  ghost predicate NoneThrew(visited: seq<Id>, outcome: Id -> Outcome) {
    forall id | id in visited :: !outcome(id).Threw?
  }

  /** One page, left at the first account that throws. */
  method VisitPage(ids: seq<Id>, before: Report, ghost visited: seq<Id>, outcome: Id -> Outcome)
    returns (report: Report, seen: nat)
    requires before == Total(visited, outcome)
    ensures seen <= |ids| && NoneThrew(ids[..seen], outcome)
    ensures report == Total(visited + ids[..seen], outcome)
    ensures seen < |ids| ==> outcome(ids[seen]).Threw?
  {
    report := before;
    assert visited + ids[..0] == visited;
    for i := 0 to |ids|
      invariant report == Total(visited + ids[..i], outcome) && NoneThrew(ids[..i], outcome)
    {
      if outcome(ids[i]).Threw? {
        return report, i;
      }
      OneMoreVisited(visited + ids[..i], ids[i], outcome);
      assert visited + ids[..i + 1] == visited + ids[..i] + [ids[i]];
      report := Counted(report, ids[i], outcome(ids[i]));
    }
    seen := |ids|;
  }

  lemma PageIsBounded(visited: seq<Id>, after: Id, ids: seq<Id>)
    requires Bounded(visited, after) && Ascending(ids) && ids != [] && forall k | 0 <= k < |ids| :: ids[k] > after
    ensures Bounded(visited + ids, ids[|ids| - 1])
  {
  }

  /** While other work adds and removes accounts between the queries: nobody is visited twice, and every
      account that is there throughout is visited, but for one under the zero id, unless one account's
      failure ends the pass. */
  method SealEveryAccount(ghost accounts: nat -> set<Id>, query: (nat, Id) -> seq<Id>, outcome: Id -> Outcome)
    returns (result: Pass, visited: seq<Id>, ghost queries: nat)
    requires forall k: nat, after: Id :: IsPage(query(k, after), accounts(k), after)
    ensures Ascending(visited) && forall i | 0 <= i < |visited| :: visited[i] > FIRST_ACCOUNT
    ensures result.Reported? ==>
      AllCovered(accounts, queries, visited) && result.report == Total(visited, outcome) && NoneThrew(visited, outcome)
    ensures result.FailedAt? ==>
      && visited != [] && visited[|visited| - 1] == result.id && outcome(result.id).Threw?
      && NoneThrew(visited[..|visited| - 1], outcome)
  {
    hide Covered, AllCovered, Total, NoneThrew;
    var report := Report(0, 0, 0, 0, []);
    visited := [];
    queries := 0;
    var after: Id := FIRST_ACCOUNT;
    var page: nat := 0;
    NothingVisited(accounts, outcome);
    while true
      invariant queries == page && Bounded(visited, after) && report == Total(visited, outcome)
      invariant Covered(accounts, queries, after, visited) && NoneThrew(visited, outcome)
      decreases ID_COUNT - after
    {
      var ids := query(page, after);
      assert IsPage(ids, accounts(page), after);
      var seen: nat;
      report, seen := VisitPage(ids, report, visited, outcome);
      if seen < |ids| {
        StoppedWithin(visited, after, ids, seen, outcome);
        return FailedAt(ids[seen]), visited + ids[..seen + 1], page + 1;
      }
      assert ids[..seen] == ids;
      NoneThrewOnEither(visited, ids, outcome);
      PageIsCovered(accounts, page, visited, after, ids);
      if ids != [] {
        PageIsBounded(visited, after, ids);
      } else {
        assert visited + ids == visited;
      }
      visited := visited + ids;
      page := page + 1;
      queries := page;
      if |ids| < ACCOUNT_BATCH {
        break;
      }
      after := ids[|ids| - 1];
    }
    result := Reported(report);
  }

  lemma NoneThrewOnEither(visited: seq<Id>, ids: seq<Id>, outcome: Id -> Outcome)
    requires NoneThrew(visited, outcome) && NoneThrew(ids, outcome)
    ensures NoneThrew(visited + ids, outcome)
  {
  }

  /** A pass that stops within a page has visited that page up to the account that threw. */
  lemma StoppedWithin(visited: seq<Id>, after: Id, ids: seq<Id>, seen: nat, outcome: Id -> Outcome)
    requires Bounded(visited, after) && NoneThrew(visited, outcome)
    requires Ascending(ids) && seen < |ids| && NoneThrew(ids[..seen], outcome)
    requires forall k | 0 <= k < |ids| :: ids[k] > after
    ensures var all := visited + ids[..seen + 1];
            && Bounded(all, ids[seen]) && all[|all| - 1] == ids[seen] && NoneThrew(all[..|all| - 1], outcome)
  {
    PageIsBounded(visited, after, ids[..seen + 1]);
    var all := visited + ids[..seen + 1];
    assert all[..|all| - 1] == visited + ids[..seen];
  }

  lemma NothingVisited(accounts: nat -> set<Id>, outcome: Id -> Outcome)
    ensures Covered(accounts, 0, FIRST_ACCOUNT, []) && Total([], outcome) == Report(0, 0, 0, 0, [])
    ensures NoneThrew([], outcome)
  {
  }
}
