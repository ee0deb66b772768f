/**
 * Session routing: which runner a session is sent to. Runners are ranked by a
 * lexicographic priority, a session sticks to the runner it was first given,
 * and the service changes its tables only inside locked sections, each of
 * which is one atomic step here.
 */
module Dispatcher {
  import opened Wrappers

  datatype Ordering = Less | Equal | Greater

  function Flip(o: Ordering): Ordering {
    match o case Less => Greater case Equal => Equal case Greater => Less
  }

  function Then(first: Ordering, second: Ordering): Ordering { if first.Equal? then second else first }

  function CompareReal(a: real, b: real): Ordering { if a < b then Less else if a == b then Equal else Greater }

  function CompareNat(a: nat, b: nat): Ordering { if a < b then Less else if a == b then Equal else Greater }

  function CompareText(a: string, b: string): Ordering {
    if a == [] && b == [] then Equal
    else if a == [] then Less
    else if b == [] then Greater
    else if a[0] != b[0] then (if a[0] < b[0] then Less else Greater)
    else CompareText(a[1..], b[1..])
  }

  datatype RunnerSnapshot = RunnerSnapshot(
    runnerId: string,
    restoreSlots: nat,
    inflightRestores: nat,
    restoreQueueDepth: nat,
    restoreP95Ms: real,
    activeSessions: nat,
    draining: bool,
    healthy: bool)
  {
    function AvailableRestoreSlots(): (n: nat) {
      if inflightRestores <= restoreSlots then restoreSlots - inflightRestores else 0
    }

    predicate AcceptsNewSessions() { healthy && !draining && AvailableRestoreSlots() > 0 }
  }

  function CompareRunnerPriority(left: RunnerSnapshot, right: RunnerSnapshot): Ordering {
    Then(CompareNat(right.AvailableRestoreSlots(), left.AvailableRestoreSlots()),
    Then(CompareNat(left.restoreQueueDepth, right.restoreQueueDepth),
    Then(CompareReal(left.restoreP95Ms, right.restoreP95Ms),
    Then(CompareNat(left.activeSessions, right.activeSessions),
         CompareText(left.runnerId, right.runnerId)))))
  }

  // ----- the priority is a total order that tells any two runners apart -----

  lemma {:induction false} TextFlips(a: string, b: string)
    ensures CompareText(b, a) == Flip(CompareText(a, b))
    ensures CompareText(a, b) == Equal <==> a == b
  {
    if a != [] && b != [] && a[0] == b[0] {
      TextFlips(a[1..], b[1..]);
      assert a == [a[0]] + a[1..] && b == [b[0]] + b[1..];
    }
  }

  lemma {:induction false} TextTransitive(a: string, b: string, c: string)
    requires CompareText(a, b) != Greater && CompareText(b, c) != Greater
    ensures CompareText(a, c) != Greater
  {
    if a != [] && b != [] && c != [] && a[0] == b[0] == c[0] {
      TextTransitive(a[1..], b[1..], c[1..]);
    }
  }

  /** Two texts differ first at `k`, or one ends there. */
  predicate FirstDifference(a: string, b: string, k: nat) {
    k <= |a| && k <= |b| && a[..k] == b[..k] && (k == |a| || k == |b| || a[k] != b[k])
  }

  /** Dictionary order: the first difference decides, and a proper prefix comes first. */
  lemma {:induction false} TextOrder(a: string, b: string, k: nat)
    requires FirstDifference(a, b, k)
    ensures CompareText(a, b) == Less <==> k < |b| && (k == |a| || a[k] < b[k])
    decreases k
  {
    if k > 0 {
      assert a[0] == a[..k][0] == b[..k][0] == b[0];
      assert a[1..][..k - 1] == a[..k][1..] == b[1..][..k - 1];
      TextOrder(a[1..], b[1..], k - 1);
    }
  }

  lemma PriorityFlips(a: RunnerSnapshot, b: RunnerSnapshot)
    ensures CompareRunnerPriority(b, a) == Flip(CompareRunnerPriority(a, b))
    ensures CompareRunnerPriority(a, b) == Equal ==> a.runnerId == b.runnerId
  {
    TextFlips(a.runnerId, b.runnerId);
  }

  lemma PriorityTransitive(a: RunnerSnapshot, b: RunnerSnapshot, c: RunnerSnapshot)
    requires CompareRunnerPriority(a, b) != Greater && CompareRunnerPriority(b, c) != Greater
    ensures CompareRunnerPriority(a, c) != Greater
  {
    if CompareText(a.runnerId, b.runnerId) != Greater && CompareText(b.runnerId, c.runnerId) != Greater {
      TextTransitive(a.runnerId, b.runnerId, c.runnerId);
    }
  }

  // ----- choosing a runner -----

  type Runners = map<string, RunnerSnapshot>

  /** Every snapshot is filed under its own runner. */
  ghost predicate Keyed(runners: Runners) { forall id <- runners :: runners[id].runnerId == id }

  /** Healthy, not draining, and fewer restores under way than slots. */
  ghost predicate Accepting(runners: Runners, id: string) {
    && id in runners && runners[id].healthy && !runners[id].draining
    && runners[id].inflightRestores < runners[id].restoreSlots
  }

  /** A runner that may take a new session and that no other such runner outranks. */
  ghost predicate IsBest(runners: Runners, id: string) {
    && Accepting(runners, id)
    && forall other | Accepting(runners, other) :: CompareRunnerPriority(runners[id], runners[other]) != Greater
  }

  lemma BestIsUnique(runners: Runners, a: string, b: string)
    requires Keyed(runners) && IsBest(runners, a) && IsBest(runners, b)
    ensures a == b
  {
    PriorityFlips(runners[a], runners[b]);
  }

  /**
   * What being best means: no accepting runner has more free slots; among those
   * with as many none has a shorter queue, then none a faster restore, then none
   * fewer sessions, and then none a smaller name.
   */
  ghost predicate LeastLoaded(runners: Runners, id: string)
    requires id in runners
  {
    var best := runners[id];
    forall other | Accepting(runners, other) ::
      var o := runners[other];
      var free, most := o.restoreSlots - o.inflightRestores, best.restoreSlots - best.inflightRestores;
      && free <= most
      && (free == most ==>
            && best.restoreQueueDepth <= o.restoreQueueDepth
            && (best.restoreQueueDepth == o.restoreQueueDepth ==>
                  && best.restoreP95Ms <= o.restoreP95Ms
                  && (best.restoreP95Ms == o.restoreP95Ms ==>
                        && best.activeSessions <= o.activeSessions
                        && (best.activeSessions == o.activeSessions && other != id ==>
                              CompareText(id, other) == Less))))
  }

  lemma BestIsLeastLoaded(runners: Runners, id: string)
    requires Keyed(runners) && IsBest(runners, id)
    ensures LeastLoaded(runners, id)
  {
    forall other | Accepting(runners, other) ensures CompareText(id, other) == Equal ==> id == other {
      TextFlips(id, other);
    }
  }

  /**
   * The minimum over the snapshots in whatever order they are visited: the
   * outcome is fixed by the table alone.
   */
  method SelectRunner(runners: Runners) returns (best: Option<string>)
    requires Keyed(runners)
    ensures best.Some? <==> exists id :: Accepting(runners, id)
    ensures best.Some? ==> IsBest(runners, best.value) && forall id | IsBest(runners, id) :: id == best.value
    ensures best.Some? ==> LeastLoaded(runners, best.value)
  {
    best := None;
    var todo := runners.Keys;
    while todo != {}
      invariant todo <= runners.Keys
      invariant best.Some? ==> Accepting(runners, best.value)
      invariant forall id | Accepting(runners, id) && id !in todo ::
                  best.Some? && CompareRunnerPriority(runners[best.value], runners[id]) != Greater
      decreases |todo|
    {
      var id :| id in todo;
      todo := todo - {id};
      ghost var before := best;
      if runners[id].AcceptsNewSessions() {
        PriorityFlips(runners[id], runners[id]);
        if best.None? || CompareRunnerPriority(runners[best.value], runners[id]) == Greater {
          if best.Some? { PriorityFlips(runners[best.value], runners[id]); }
          best := Some(id);
        }
        forall other | Accepting(runners, other) && other !in todo
          ensures CompareRunnerPriority(runners[best.value], runners[other]) != Greater
        {
          if other != id && before.Some? && best != before {
            PriorityTransitive(runners[id], runners[before.value], runners[other]);
          }
        }
      }
    }
    if best.Some? {
      forall id | IsBest(runners, id) ensures id == best.value { BestIsUnique(runners, id, best.value); }
      BestIsLeastLoaded(runners, best.value);
    }
  }

  // ----- the atomic steps -----

  datatype Routing = Routing(runners: Runners, affinity: map<string, string>, urls: map<string, string>)

  datatype Found = Found(snapshot: RunnerSnapshot, url: string)

  datatype Step =
    | Refresh(discovered: seq<Found>)
    | Dispatch(session: string)
    | Lookup(session: string)
    | Release(session: string)

  datatype Error = NoRunnerAvailable | UnknownSession(session: string)

  datatype Reply = Url(url: string) | Failed(error: Error) | Done

  /** What the tables always satisfy: snapshots and addresses are known for the same runners. */
  ghost predicate Consistent(s: Routing) { Keyed(s.runners) && s.runners.Keys == s.urls.Keys }

  function Initial(): Routing { Routing(map[], map[], map[]) }

  /** The snapshots of a discovery round; a later report replaces an earlier one. */
  function Snapshots(discovered: seq<Found>): (m: Runners) {
    if discovered == [] then map[]
    else
      var f := discovered[|discovered| - 1];
      Snapshots(discovered[..|discovered| - 1])[f.snapshot.runnerId := f.snapshot]
  }

  function Urls(discovered: seq<Found>): (m: map<string, string>) {
    if discovered == [] then map[]
    else
      var f := discovered[|discovered| - 1];
      Urls(discovered[..|discovered| - 1])[f.snapshot.runnerId := f.url]
  }

  lemma TablesGrow(discovered: seq<Found>, i: nat)
    requires i < |discovered|
    ensures var f := discovered[i];
            && Snapshots(discovered[..i + 1]) == Snapshots(discovered[..i])[f.snapshot.runnerId := f.snapshot]
            && Urls(discovered[..i + 1]) == Urls(discovered[..i])[f.snapshot.runnerId := f.url]
  {
    assert discovered[..i + 1][..i] == discovered[..i];
  }

  lemma MergeThenPut<V>(m: map<string, V>, n: map<string, V>, key: string, value: V)
    ensures (m + n)[key := value] == m + n[key := value]
  {
  }

  lemma Overwritten<V>(m: map<string, V>, n: map<string, V>)
    requires m.Keys <= n.Keys
    ensures m + n == n
  {
  }

  ghost function Best(runners: Runners): (r: Option<string>)
    ensures r.Some? ==> IsBest(runners, r.value)
    ensures r.None? ==> forall id :: !IsBest(runners, id)
  {
    if id :| IsBest(runners, id) then Some(id) else None
  }

  /** The state and the reply after one locked section, which keeps the tables consistent. */
  ghost function Next(s: Routing, step: Step): (r: (Routing, Reply))
    requires Consistent(s)
    ensures Consistent(r.0)
  {
    match step
    case Refresh(discovered) =>
      DiscoveredTables(discovered);
      (Routing(Snapshots(discovered), s.affinity, Urls(discovered)), Done)
    case Release(session) => (s.(affinity := s.affinity - {session}), Done)
    case Lookup(session) =>
      if session in s.affinity && s.affinity[session] in s.urls then (s, Url(s.urls[s.affinity[session]]))
      else (s, Failed(UnknownSession(session)))
    case Dispatch(session) =>
      if session in s.affinity && s.affinity[session] in s.runners then (s, Url(s.urls[s.affinity[session]]))
      else
        var best := Best(s.runners);
        if best.None? then (s.(affinity := s.affinity - {session}), Failed(NoRunnerAvailable))
        else (s.(affinity := s.affinity[session := best.value]), Url(s.urls[best.value]))
  }

  lemma {:induction false} DiscoveredTables(discovered: seq<Found>)
    ensures Keyed(Snapshots(discovered)) && Snapshots(discovered).Keys == Urls(discovered).Keys
    ensures forall id :: id in Snapshots(discovered) <==>
                           exists i :: 0 <= i < |discovered| && discovered[i].snapshot.runnerId == id
  {
    if discovered != [] {
      var init := discovered[..|discovered| - 1];
      DiscoveredTables(init);
      forall id | id in Snapshots(discovered)
        ensures exists i :: 0 <= i < |discovered| && discovered[i].snapshot.runnerId == id
      {
        if id != discovered[|discovered| - 1].snapshot.runnerId {
          assert id in Snapshots(init);
          var i :| 0 <= i < |init| && init[i].snapshot.runnerId == id;
          assert discovered[i].snapshot.runnerId == id;
        }
      }
      forall i | 0 <= i < |discovered| ensures discovered[i].snapshot.runnerId in Snapshots(discovered) {
        if i < |init| { assert init[i].snapshot.runnerId in Snapshots(init); }
      }
    }
  }

  /** Of several reports about a runner the last one counts. */
  lemma {:induction false} LastReportCounts(discovered: seq<Found>, i: nat)
    requires i < |discovered|
    requires forall j :: i < j < |discovered| ==> discovered[j].snapshot.runnerId != discovered[i].snapshot.runnerId
    ensures var f := discovered[i];
            && f.snapshot.runnerId in Snapshots(discovered) && f.snapshot.runnerId in Urls(discovered)
            && Snapshots(discovered)[f.snapshot.runnerId] == f.snapshot
            && Urls(discovered)[f.snapshot.runnerId] == f.url
    decreases |discovered|
  {
    var n := |discovered| - 1;
    if i < n {
      var init := discovered[..n];
      assert init[i] == discovered[i] && discovered[n].snapshot.runnerId != discovered[i].snapshot.runnerId;
      LastReportCounts(init, i);
    }
  }

  // ----- runs: any interleaving of steps -----

  ghost function Run(s: Routing, steps: seq<Step>): (r: Routing)
    requires Consistent(s)
    ensures Consistent(r)
    decreases |steps|
  {
    if steps == [] then s
    else
      Run(Next(s, steps[0]).0, steps[1..])
  }

  lemma {:induction false} RunSplits(s: Routing, steps: seq<Step>, i: nat)
    requires Consistent(s) && i <= |steps|
    ensures Run(s, steps) == Run(Run(s, steps[..i]), steps[i..])
    decreases |steps|
  {
    if i > 0 {
      RunSplits(Next(s, steps[0]).0, steps[1..], i - 1);
      assert steps[..i][1..] == steps[1..][..i - 1];
      assert steps[1..][i - 1..] == steps[i..];
    } else {
      assert steps[..0] == [] && steps[0..] == steps;
    }
  }

  lemma RunSnoc(s: Routing, steps: seq<Step>)
    requires Consistent(s) && steps != []
    ensures var before := Run(s, steps[..|steps| - 1]);
            Run(s, steps) == Next(before, steps[|steps| - 1]).0
  {
    var n := |steps| - 1;
    RunSplits(s, steps, n);
    var before := Run(s, steps[..n]);
    assert steps[n..] == [steps[n]];
    assert Run(Next(before, steps[n]).0, steps[n..][1..]) == Next(before, steps[n]).0;
  }

  /** A step that ends a session's pin to a runner: its release, or a dispatch that finds the runner gone. */
  ghost predicate Unpins(s: Routing, step: Step, session: string, runner: string) {
    step == Release(session) || (step == Dispatch(session) && runner !in s.runners)
  }

  lemma StepAndPin(s: Routing, step: Step, session: string, runner: string)
    requires Consistent(s) && session in s.affinity && s.affinity[session] == runner
    ensures !Unpins(s, step, session, runner) ==>
              var t := Next(s, step).0; session in t.affinity && t.affinity[session] == runner
    ensures Unpins(s, step, session, runner) ==>
              var t := Next(s, step).0; session in t.affinity ==> t.affinity[session] != runner
  {
  }

  /** Affinity is sticky: through any run without an unpinning step the session keeps its runner. */
  lemma {:induction false} AffinityIsSticky(s: Routing, steps: seq<Step>, session: string, runner: string)
    requires Consistent(s) && session in s.affinity && s.affinity[session] == runner
    requires forall i | 0 <= i < |steps| :: !Unpins(Run(s, steps[..i]), steps[i], session, runner)
    ensures session in Run(s, steps).affinity && Run(s, steps).affinity[session] == runner
    decreases |steps|
  {
    if steps != [] {
      var n := |steps| - 1;
      var init := steps[..n];
      forall i | 0 <= i < |init| ensures !Unpins(Run(s, init[..i]), init[i], session, runner) {
        assert init[..i] == steps[..i] && init[i] == steps[i];
      }
      AffinityIsSticky(s, init, session, runner);
      RunSnoc(s, steps);
      StepAndPin(Run(s, init), steps[n], session, runner);
    }
  }

  /** The step that gave a session its runner: a dispatch that found that runner best, and nothing unpinned it since. */
  ghost predicate PinnedAt(steps: seq<Step>, i: nat, session: string, runner: string)
    requires i < |steps|
  {
    && steps[i] == Dispatch(session)
    && IsBest(Run(Initial(), steps[..i]).runners, runner)
    && forall j | i < j < |steps| :: !Unpins(Run(Initial(), steps[..j]), steps[j], session, runner)
  }

  lemma PinLasts(steps: seq<Step>, i: nat, session: string, runner: string)
    requires i + 1 < |steps| && PinnedAt(steps[..|steps| - 1], i, session, runner)
    requires var n := |steps| - 1; !Unpins(Run(Initial(), steps[..n]), steps[n], session, runner)
    ensures PinnedAt(steps, i, session, runner)
  {
    var n := |steps| - 1;
    var init := steps[..n];
    assert init[..i] == steps[..i] && init[i] == steps[i];
    forall j | i < j < |steps| ensures !Unpins(Run(Initial(), steps[..j]), steps[j], session, runner) {
      if j < n { assert init[..j] == steps[..j] && init[j] == steps[j]; }
    }
  }

  /** A pin that was not there before the last step, or not for this runner, is that step's doing. */
  lemma NewPin(steps: seq<Step>, session: string, runner: string)
    requires steps != [] && session in Run(Initial(), steps).affinity
    requires runner == Run(Initial(), steps).affinity[session]
    requires var n := |steps| - 1;
             var before := Run(Initial(), steps[..n]);
             !(session in before.affinity && before.affinity[session] == runner &&
               !Unpins(before, steps[n], session, runner))
    ensures PinnedAt(steps, |steps| - 1, session, runner)
  {
    var n := |steps| - 1;
    RunSnoc(Initial(), steps);
    StepPins(Run(Initial(), steps[..n]), steps[n], session, runner);
  }

  lemma StepPins(s: Routing, step: Step, session: string, runner: string)
    requires Consistent(s) && session in Next(s, step).0.affinity && Next(s, step).0.affinity[session] == runner
    requires !(session in s.affinity && s.affinity[session] == runner && !Unpins(s, step, session, runner))
    ensures step == Dispatch(session) && IsBest(s.runners, runner)
  {
  }

  /** Every pin in every reachable state goes back to a dispatch onto a healthy runner with a free slot. */
  lemma {:induction false} PinsComeFromDispatch(steps: seq<Step>, session: string)
    returns (i: nat)
    requires session in Run(Initial(), steps).affinity
    ensures i < |steps| && PinnedAt(steps, i, session, Run(Initial(), steps).affinity[session])
    ensures var chosen := Run(Initial(), steps[..i]).runners[Run(Initial(), steps).affinity[session]];
            chosen.healthy && !chosen.draining && chosen.inflightRestores < chosen.restoreSlots
    decreases |steps|
  {
    assert steps != [];
    var n := |steps| - 1;
    var before := Run(Initial(), steps[..n]);
    var runner := Run(Initial(), steps).affinity[session];
    if session in before.affinity && before.affinity[session] == runner && !Unpins(before, steps[n], session, runner) {
      i := PinsComeFromDispatch(steps[..n], session);
      PinLasts(steps, i, session, runner);
      assert steps[..n][..i] == steps[..i];
    } else {
      i := n;
      NewPin(steps, session, runner);
    }
  }

  /**
   * Once a dispatch has answered, a lookup after any run that does not unpin
   * the session goes to the same runner, and fails only if that runner is gone.
   */
  lemma LookupAfterDispatch(s: Routing, session: string, steps: seq<Step>)
    requires Consistent(s) && Next(s, Dispatch(session)).1.Url?
    requires var t := Next(s, Dispatch(session)).0;
             forall i | 0 <= i < |steps| :: !Unpins(Run(t, steps[..i]), steps[i], session, t.affinity[session])
    ensures var t := Next(s, Dispatch(session)).0;
            var runner, later := t.affinity[session], Run(t, steps);
            && Next(s, Dispatch(session)).1 == Url(t.urls[runner])
            && Next(later, Lookup(session)).1 ==
               if runner in later.runners then Url(later.urls[runner]) else Failed(UnknownSession(session))
  {
    var t := Next(s, Dispatch(session)).0;
    AffinityIsSticky(t, steps, session, t.affinity[session]);
    PinnedLookup(Run(t, steps), session);
  }

  lemma PinnedLookup(s: Routing, session: string)
    requires Consistent(s) && session in s.affinity
    ensures Next(s, Lookup(session)).1 ==
            if s.affinity[session] in s.runners then Url(s.urls[s.affinity[session]])
            else Failed(UnknownSession(session))
  {
  }

  /** A session is turned away exactly when it has no live runner and no runner accepts. */
  lemma RefusedExactlyWhenFull(s: Routing, session: string)
    requires Consistent(s)
    ensures Next(s, Dispatch(session)).1 == Failed(NoRunnerAvailable) <==>
            && !(session in s.affinity && s.affinity[session] in s.runners)
            && forall id :: !Accepting(s.runners, id)
  {
    if exists id :: Accepting(s.runners, id) { SomeBest(s.runners); }
  }

  lemma SomeBest(runners: Runners)
    requires exists id :: Accepting(runners, id)
    ensures exists id :: IsBest(runners, id)
  {
    var some :| Accepting(runners, some);
    var accepting := set id | id in runners && Accepting(runners, id);
    assert some in accepting;
    var best := Least(runners, accepting);
    assert IsBest(runners, best);
  }

  lemma {:induction false} Least(runners: Runners, ids: set<string>) returns (best: string)
    requires ids != {} && forall id <- ids :: id in runners
    ensures best in ids && forall id <- ids :: CompareRunnerPriority(runners[best], runners[id]) != Greater
    decreases |ids|
  {
    best :| best in ids;
    PriorityFlips(runners[best], runners[best]);
    if ids != {best} {
      var rest := Least(runners, ids - {best});
      PriorityFlips(runners[best], runners[rest]);
      if CompareRunnerPriority(runners[best], runners[rest]) != Greater {
        forall id <- ids ensures CompareRunnerPriority(runners[best], runners[id]) != Greater {
          if id != best { PriorityTransitive(runners[best], runners[rest], runners[id]); }
        }
      } else {
        best := rest;
      }
    }
  }

  // ----- the service's tables -----

  class RoutingState {
    var runners: Runners
    var sessionAffinity: map<string, string>
    var runnerUrls: map<string, string>

    ghost function Value(): (s: Routing)
      reads this
    {
      Routing(runners, sessionAffinity, runnerUrls)
    }

    constructor ()
      ensures Value() == Initial() && Consistent(Value())
    {
      runners, sessionAffinity, runnerUrls := map[], map[], map[];
    }

    /** How many runners could take a new session right now. */
    method RoutableRunnerCount() returns (n: nat)
      ensures n == |set id | id in runners && Accepting(runners, id)|
    {
      n := 0;
      var todo := runners.Keys;
      ghost var seen: set<string> := {};
      while todo != {}
        invariant todo <= runners.Keys
        invariant seen == set id | id in runners && id !in todo && Accepting(runners, id)
        invariant n == |seen|
        decreases |todo|
      {
        var id :| id in todo;
        todo := todo - {id};
        if runners[id].AcceptsNewSessions() {
          n := n + 1;
          seen := seen + {id};
        }
      }
      assert seen == set id | id in runners && Accepting(runners, id);
    }

    /** The locked part of a refresh: afterwards exactly the discovered runners are known. */
    method RefreshRunners(discovered: seq<Found>) returns (routable: nat)
      requires Consistent(Value())
      modifies this
      ensures Consistent(Value()) && Value() == Next(old(Value()), Refresh(discovered)).0
      ensures routable == |set id | id in runners && Accepting(runners, id)|
    {
      DiscoveredTables(discovered);
      RemoveAll(runnerUrls.Keys - set i | 0 <= i < |discovered| :: discovered[i].snapshot.runnerId);
      assert runners.Keys <= Snapshots(discovered).Keys;
      Overwritten(runners, Snapshots(discovered));
      Overwritten(runnerUrls, Urls(discovered));
      InsertAll(discovered);
      routable := RoutableRunnerCount();
    }

    /** Forgets runners that were not rediscovered. */
    method RemoveAll(ids: set<string>)
      modifies this`runners, this`runnerUrls
      ensures runners == old(runners) - ids && runnerUrls == old(runnerUrls) - ids
    {
      var gone := ids;
      while gone != {}
        invariant gone <= ids
        invariant runners == old(runners) - (ids - gone) && runnerUrls == old(runnerUrls) - (ids - gone)
        decreases |gone|
      {
        var id :| id in gone;
        runners := runners - {id};
        runnerUrls := runnerUrls - {id};
        gone := gone - {id};
      }
    }

    /** Files every report of a discovery round. */
    method InsertAll(discovered: seq<Found>)
      modifies this`runners, this`runnerUrls
      ensures runners == old(runners) + Snapshots(discovered) && runnerUrls == old(runnerUrls) + Urls(discovered)
    {
      for i := 0 to |discovered|
        invariant runners == old(runners) + Snapshots(discovered[..i])
        invariant runnerUrls == old(runnerUrls) + Urls(discovered[..i])
      {
        var found := discovered[i];
        TablesGrow(discovered, i);
        MergeThenPut(old(runners), Snapshots(discovered[..i]), found.snapshot.runnerId, found.snapshot);
        MergeThenPut(old(runnerUrls), Urls(discovered[..i]), found.snapshot.runnerId, found.url);
        runners := runners[found.snapshot.runnerId := found.snapshot];
        runnerUrls := runnerUrls[found.snapshot.runnerId := found.url];
      }
      assert discovered[..|discovered|] == discovered;
    }

    /**
     * The locked part of routing a session: an existing pin first, otherwise
     * the best accepting runner. A selected runner always has an address.
     */
    method SelectRunnerUrl(session: string) returns (reply: Reply)
      requires Consistent(Value())
      modifies this
      ensures Consistent(Value()) && (Value(), reply) == Next(old(Value()), Dispatch(session))
    {
      if session in sessionAffinity {
        var id := sessionAffinity[session];
        if id in runners {
          return Url(runnerUrls[id]);
        }
        sessionAffinity := sessionAffinity - {session};
      }
      assert sessionAffinity == old(sessionAffinity) - {session};
      var selected := SelectRunner(runners);
      if selected.None? {
        return Failed(NoRunnerAvailable);
      }
      sessionAffinity := sessionAffinity[session := selected.value];
      assert sessionAffinity == old(sessionAffinity)[session := selected.value];
      reply := Url(runnerUrls[selected.value]);
    }

    method RunnerUrlForExistingSession(session: string) returns (reply: Reply)
      requires Consistent(Value())
      ensures reply == Next(Value(), Lookup(session)).1
      ensures reply.Url? <==> session in sessionAffinity && sessionAffinity[session] in runners
    {
      if session !in sessionAffinity { return Failed(UnknownSession(session)); }
      var id := sessionAffinity[session];
      if id !in runnerUrls { return Failed(UnknownSession(session)); }
      reply := Url(runnerUrls[id]);
    }

    method ReleaseSessionAffinity(session: string)
      requires Consistent(Value())
      modifies this
      ensures Consistent(Value()) && Value() == Next(old(Value()), Release(session)).0
    {
      sessionAffinity := sessionAffinity - {session};
    }
  }
}
