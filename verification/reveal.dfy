/**
 * Revealing an investor's contact details. The page keeps two sets of row
 * ids, `revealedInvestors` and `revealingInvestors`; `handleRevealInvestor`
 * is an async function whose awaits split it into continuations run later by
 * the event loop. The model makes those continuations explicit as pending
 * tasks, so a click, the settling of a detail request and the firing of the
 * one-second timer are separate events.
 */
module Reveal {
  import opened Investors

  /** The page state the reveal flow reads and writes. */
  datatype View = View(investors: seq<Investor>, revealed: set<Id>, revealing: set<Id>)

  /** A suspended `handleRevealInvestor` call. */
  datatype Task =
    | AwaitFetch(id: Id)   // waiting for `fetch(.../api/investors/{id})` to settle
    | AwaitTimer(id: Id)   // waiting for the 1000 ms `setTimeout`

  datatype System = System(view: View, tasks: seq<Task>)

  /** How a detail request settles. */
  datatype Response =
    | Delivered(detail: Detail)   // response.ok, and result.success and result.data are truthy
    | Declined                    // response.ok, but result.success or result.data is falsy
    | Thrown                      // the fetch rejects, the status is not 2xx, or the body is not JSON

  /** The three states the reveal button shows. */
  datatype Status = Hidden | Revealing | Revealed

  datatype Event =
    | Click(id: Id)
    | Settle(task: nat, response: Response)
    | TimerFires(task: nat)

  /** The page after the directory has loaded: nothing revealed, nothing pending. */
  function Init(xs: seq<Investor>): System {
    System(View(xs, {}, {}), [])
  }

  /** The button's label: "Revealing..." is checked first, then "Revealed". */
  function StatusOf(v: View, id: Id): (r: Status)
    ensures r == Revealing <==> id in v.revealing
    ensures r == Revealed <==> id in v.revealed && id !in v.revealing
  {
    if id in v.revealing then Revealing
    else if id in v.revealed then Revealed
    else Hidden
  }

  /** `investors.map(investor => investor.row_id === id ? upd(investor) : investor)` */
  function UpdateRows(xs: seq<Investor>, id: Id, upd: Investor -> Investor): (r: seq<Investor>)
    ensures |r| == |xs|
    ensures forall k :: 0 <= k < |xs| && xs[k].rowId != id ==> r[k] == xs[k]
    ensures forall k :: 0 <= k < |xs| && xs[k].rowId == id ==> r[k] == upd(xs[k])
  {
    seq(|xs|, k requires 0 <= k < |xs| => if xs[k].rowId == id then upd(xs[k]) else xs[k])
  }

  /** The task list without its `k`-th entry. */
  function Remove(tasks: seq<Task>, k: nat): (r: seq<Task>)
    requires k < |tasks|
    ensures |r| == |tasks| - 1
    ensures forall j :: 0 <= j < k ==> r[j] == tasks[j]
    ensures forall j :: k <= j < |r| ==> r[j] == tasks[j + 1]
  {
    tasks[..k] + tasks[k + 1..]
  }

  /**
   * A click on the reveal button. The guard returns at once for an id that is
   * revealed or being revealed; otherwise the id joins `revealingInvestors`
   * and exactly one detail request is issued.
   */
  function ClickReveal(s: System, id: Id): (r: System)
    ensures StatusOf(s.view, id) != Hidden ==> r == s
    ensures StatusOf(s.view, id) == Hidden ==>
      && r.view.investors == s.view.investors
      && r.view.revealed == s.view.revealed
      && r.view.revealing == s.view.revealing + {id}
      && r.tasks == s.tasks + [AwaitFetch(id)]
  {
    if id in s.view.revealed || id in s.view.revealing then s
    else System(s.view.(revealing := s.view.revealing + {id}), s.tasks + [AwaitFetch(id)])
  }

  /**
   * The detail request of task `k` settles, as the code is written. A
   * delivered record is merged into every row with the id, which is flagged
   * as revealing while the timer runs; a thrown error drops the id from
   * `revealingInvestors`; a declined response does nothing at all.
   */
  function SettleFetch(s: System, k: nat, response: Response): (r: System)
    requires k < |s.tasks| && s.tasks[k].AwaitFetch?
    ensures r.view.revealed == s.view.revealed
    ensures response.Delivered? ==>
      && r.view.revealing == s.view.revealing
      && r.tasks == s.tasks[k := AwaitTimer(s.tasks[k].id)]
      && |r.view.investors| == |s.view.investors|
      && (forall j :: 0 <= j < |s.view.investors| && s.view.investors[j].rowId == s.tasks[k].id ==>
            r.view.investors[j] == Merge(s.view.investors[j], response.detail))
      && (forall j :: 0 <= j < |s.view.investors| && s.view.investors[j].rowId != s.tasks[k].id ==>
            r.view.investors[j] == s.view.investors[j])
    ensures response.Declined? ==> r.view == s.view && r.tasks == Remove(s.tasks, k)
    ensures response.Thrown? ==>
      && r.view.investors == s.view.investors
      && r.view.revealing == s.view.revealing - {s.tasks[k].id}
      && r.tasks == Remove(s.tasks, k)
  {
    var id := s.tasks[k].id;
    match response
    case Delivered(d) =>
      System(s.view.(investors := UpdateRows(s.view.investors, id, inv => Merge(inv, d))),
             s.tasks[k := AwaitTimer(id)])
    case Declined =>
      s.(tasks := Remove(s.tasks, k))
    case Thrown =>
      System(s.view.(revealing := s.view.revealing - {id}), Remove(s.tasks, k))
  }

  /**
   * The one-second wait of task `k` ends: the id moves from
   * `revealingInvestors` to `revealedInvestors` and its rows lose the
   * revealing flag.
   */
  function FireTimer(s: System, k: nat): (r: System)
    requires k < |s.tasks| && s.tasks[k].AwaitTimer?
    ensures r.view.revealed == s.view.revealed + {s.tasks[k].id}
    ensures r.view.revealing == s.view.revealing - {s.tasks[k].id}
    ensures r.tasks == Remove(s.tasks, k)
    ensures |r.view.investors| == |s.view.investors|
    ensures forall j :: 0 <= j < |s.view.investors| && s.view.investors[j].rowId == s.tasks[k].id ==>
      r.view.investors[j] == s.view.investors[j].(isRevealing := false)
    ensures forall j :: 0 <= j < |s.view.investors| && s.view.investors[j].rowId != s.tasks[k].id ==>
      r.view.investors[j] == s.view.investors[j]
  {
    var id := s.tasks[k].id;
    System(View(UpdateRows(s.view.investors, id, (inv: Investor) => inv.(isRevealing := false)),
                s.view.revealed + {id},
                s.view.revealing - {id}),
           Remove(s.tasks, k))
  }

  /** Whether the event loop can deliver `e` now. */
  predicate Enabled(s: System, e: Event) {
    match e
    case Click(_) => true
    case Settle(k, _) => k < |s.tasks| && s.tasks[k].AwaitFetch?
    case TimerFires(k) => k < |s.tasks| && s.tasks[k].AwaitTimer?
  }

  function Apply(s: System, e: Event): System
    requires Enabled(s, e)
  {
    match e
    case Click(id) => ClickReveal(s, id)
    case Settle(k, response) => SettleFetch(s, k, response)
    case TimerFires(k) => FireTimer(s, k)
  }

  /**
   * What every reachable state satisfies: no id is both revealed and being
   * revealed, every pending task belongs to an id being revealed, and no two
   * pending tasks belong to the same id.
   */
  ghost predicate Inv(s: System) {
    && s.view.revealed !! s.view.revealing
    && (forall k :: 0 <= k < |s.tasks| ==> s.tasks[k].id in s.view.revealing)
    && (forall j, k :: 0 <= j < k < |s.tasks| ==> s.tasks[j].id != s.tasks[k].id)
  }

  lemma InitSatisfiesInv(xs: seq<Investor>)
    ensures Inv(Init(xs))
  {
  }

  /** Dropping task `k` and its id keeps the invariant. */
  lemma RemoveKeepsInv(s: System, k: nat, view: View)
    requires Inv(s) && k < |s.tasks|
    requires view.revealed !! view.revealing
    requires s.view.revealing - {s.tasks[k].id} <= view.revealing
    ensures Inv(System(view, Remove(s.tasks, k)))
  {
    var r := Remove(s.tasks, k);
    forall j | 0 <= j < |r|
      ensures r[j].id in view.revealing
    {
      var orig := if j < k then j else j + 1;
      assert r[j] == s.tasks[orig] && s.tasks[orig].id != s.tasks[k].id;
    }
    forall i, j | 0 <= i < j < |r|
      ensures r[i].id != r[j].id
    {
      var oi, oj := if i < k then i else i + 1, if j < k then j else j + 1;
      assert r[i] == s.tasks[oi] && r[j] == s.tasks[oj];
    }
  }

  /** Every event preserves the invariant. */
  lemma ApplyPreservesInv(s: System, e: Event)
    requires Inv(s) && Enabled(s, e)
    ensures Inv(Apply(s, e))
  {
    match e
    case Click(id) =>
      var r := ClickReveal(s, id);
      if StatusOf(s.view, id) == Hidden {
        assert forall k :: 0 <= k < |s.tasks| ==> s.tasks[k].id != id;
        assert r.tasks[|s.tasks|].id == id;
      }
    case Settle(k, response) =>
      var r := SettleFetch(s, k, response);
      match response {
        case Delivered(_) =>
          assert forall j :: 0 <= j < |r.tasks| ==> r.tasks[j].id == s.tasks[j].id;
        case Declined =>
          RemoveKeepsInv(s, k, s.view);
        case Thrown =>
          RemoveKeepsInv(s, k, r.view);
      }
    case TimerFires(k) =>
      RemoveKeepsInv(s, k, FireTimer(s, k).view);
  }

  /** `es` can be delivered one after another from `s`. */
  ghost predicate Runs(s: System, es: seq<Event>)
    decreases |es|
  {
    es == [] || (Enabled(s, es[0]) && Runs(Apply(s, es[0]), es[1..]))
  }

  /** The state after delivering `es` from `s`. */
  ghost function Final(s: System, es: seq<Event>): System
    requires Runs(s, es)
    decreases |es|
  {
    if es == [] then s else Final(Apply(s, es[0]), es[1..])
  }

  /** The invariant holds after any run of events. */
  lemma {:induction false} RunsPreserveInv(s: System, es: seq<Event>)
    requires Inv(s) && Runs(s, es)
    ensures Inv(Final(s, es))
    decreases |es|
  {
    if es != [] {
      ApplyPreservesInv(s, es[0]);
      RunsPreserveInv(Apply(s, es[0]), es[1..]);
    }
  }

  /**
   * Two clicks before the request settles issue one request: the second
   * click changes nothing, and exactly one detail request for the id is
   * pending.
   */
  lemma DoubleClickIssuesOneFetch(s: System, id: Id)
    requires Inv(s) && StatusOf(s.view, id) == Hidden
    ensures ClickReveal(ClickReveal(s, id), id) == ClickReveal(s, id)
    ensures multiset(ClickReveal(s, id).tasks)[AwaitFetch(id)] == 1
  {
    assert forall k :: 0 <= k < |s.tasks| ==> s.tasks[k].id != id;
    assert AwaitFetch(id) !in s.tasks;
  }

  /**
   * A click followed by a delivered record and the end of the timer: the id
   * ends revealed and no longer revealing, every other id keeps its status,
   * no task is left behind, and exactly the rows with the id receive the
   * detail fields.
   */
  lemma SuccessfulReveal(s: System, id: Id, d: Detail)
    requires Inv(s) && StatusOf(s.view, id) == Hidden
    ensures var s1 := ClickReveal(s, id);
      var s2 := SettleFetch(s1, |s.tasks|, Delivered(d));
      var s3 := FireTimer(s2, |s.tasks|);
      && StatusOf(s2.view, id) == Revealing
      && StatusOf(s3.view, id) == Revealed
      && (forall other :: other != id ==> StatusOf(s3.view, other) == StatusOf(s.view, other))
      && s3.tasks == s.tasks
      && |s3.view.investors| == |s.view.investors|
      && (forall i :: 0 <= i < |s.view.investors| && s.view.investors[i].rowId != id ==>
            s3.view.investors[i] == s.view.investors[i])
      && (forall i :: 0 <= i < |s.view.investors| && s.view.investors[i].rowId == id ==>
            var m := Merge(s.view.investors[i], d);
            s3.view.investors[i] == m.(isRevealing := m.rowId != id))
  {
    var s1 := ClickReveal(s, id);
    var s2 := SettleFetch(s1, |s.tasks|, Delivered(d));
    var s3 := FireTimer(s2, |s.tasks|);
    assert s2.tasks == s.tasks + [AwaitTimer(id)];
    assert s3.tasks == s.tasks;
  }

  /**
   * A click followed by a thrown error leaves the page exactly as it was, so
   * the id is hidden again and the next click is accepted.
   */
  lemma FailedRevealRestoresState(s: System, id: Id)
    requires Inv(s) && StatusOf(s.view, id) == Hidden
    ensures var s2 := SettleFetch(ClickReveal(s, id), |s.tasks|, Thrown);
      && s2 == s
      && ClickReveal(s2, id) != s2
  {
    var s1 := ClickReveal(s, id);
    assert Remove(s1.tasks, |s.tasks|) == s.tasks;
    assert s1.view.revealing - {id} == s.view.revealing;
  }

  /** The id is being revealed, but no pending task will ever finish it. */
  ghost predicate Stuck(s: System, id: Id) {
    id in s.view.revealing && forall k :: 0 <= k < |s.tasks| ==> s.tasks[k].id != id
  }

  /**
   * A declined response, as written: the id stays in `revealingInvestors`
   * with nothing left to remove it, and clicking again is refused.
   */
  lemma DeclinedRevealSticks(s: System, id: Id)
    requires Inv(s) && StatusOf(s.view, id) == Hidden
    ensures var s2 := SettleFetch(ClickReveal(s, id), |s.tasks|, Declined);
      && Stuck(s2, id)
      && StatusOf(s2.view, id) == Revealing
      && ClickReveal(s2, id) == s2
  {
    var s1 := ClickReveal(s, id);
    assert Remove(s1.tasks, |s.tasks|) == s.tasks;
  }

  /** No event releases a stuck id. */
  lemma StuckPersists(s: System, e: Event, id: Id)
    requires Inv(s) && Enabled(s, e) && Stuck(s, id)
    ensures Stuck(Apply(s, e), id)
  {
    match e
    case Click(other) =>
    case Settle(k, response) =>
      assert s.tasks[k].id != id;
    case TimerFires(k) =>
      assert s.tasks[k].id != id;
  }

  /** ... and no run of events does: the button reads "Revealing..." for good. */
  lemma {:induction false} StuckForever(s: System, es: seq<Event>, id: Id)
    requires Inv(s) && Runs(s, es) && Stuck(s, id)
    ensures Stuck(Final(s, es), id)
    ensures StatusOf(Final(s, es).view, id) == Revealing
    decreases |es|
  {
    if es != [] {
      StuckPersists(s, es[0], id);
      ApplyPreservesInv(s, es[0]);
      StuckForever(Apply(s, es[0]), es[1..], id);
    }
  }

  /** A revealed id stays revealed, whatever happens next. */
  lemma RevealedIsPermanent(s: System, e: Event, id: Id)
    requires Inv(s) && Enabled(s, e) && id in s.view.revealed
    ensures id in Apply(s, e).view.revealed
  {
  }

  /**
   * The detail request settles with a declined response treated like a
   * thrown one, as the directory load does with the same condition: the id
   * leaves `revealingInvestors` and the rows stay as they were.
   */
  function SettleFetchCorrected(s: System, k: nat, response: Response): (r: System)
    requires k < |s.tasks| && s.tasks[k].AwaitFetch?
    ensures r.view.revealed == s.view.revealed
    ensures response.Delivered? ==>
      && r.view.revealing == s.view.revealing
      && r.tasks == s.tasks[k := AwaitTimer(s.tasks[k].id)]
      && |r.view.investors| == |s.view.investors|
      && (forall j :: 0 <= j < |s.view.investors| && s.view.investors[j].rowId == s.tasks[k].id ==>
            r.view.investors[j] == Merge(s.view.investors[j], response.detail))
      && (forall j :: 0 <= j < |s.view.investors| && s.view.investors[j].rowId != s.tasks[k].id ==>
            r.view.investors[j] == s.view.investors[j])
    ensures !response.Delivered? ==>
      && r.view.investors == s.view.investors
      && r.view.revealing == s.view.revealing - {s.tasks[k].id}
      && r.tasks == Remove(s.tasks, k)
  {
    SettleFetch(s, k, if response.Declined? then Thrown else response)
  }

  /** The corrected settle keeps the invariant, like every event of the code as written. */
  lemma CorrectedSettlePreservesInv(s: System, k: nat, response: Response)
    requires Inv(s) && k < |s.tasks| && s.tasks[k].AwaitFetch?
    ensures Inv(SettleFetchCorrected(s, k, response))
  {
    var e := Settle(k, if response.Declined? then Thrown else response);
    ApplyPreservesInv(s, e);
  }

  /** With the correction, a declined response hides the id again and a retry is accepted. */
  lemma CorrectedDeclineReverts(s: System, id: Id)
    requires Inv(s) && StatusOf(s.view, id) == Hidden
    ensures var s2 := SettleFetchCorrected(ClickReveal(s, id), |s.tasks|, Declined);
      && s2 == s
      && !Stuck(s2, id)
      && ClickReveal(s2, id) != s2
  {
    FailedRevealRestoresState(s, id);
  }
}
