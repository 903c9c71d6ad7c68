/** What holds of the pairing controller after any interleaving of requests, responses, timers and cancels. */
module PairingRuns {
  import opened Prelude
  import opened Pairing

  // ----- runs -----

  /** New ids are not empty and were never handed out before. */
  ghost predicate Fresh(s: State, id: Id) {
    id != "" && forall k :: 0 <= k < |s.issued| ==> s.issued[k].id != id
  }

  ghost predicate Admissible(s: State, e: Event) {
    match e
    case RequestCode(_, w) => Fresh(s, w.freshId)
    case AttemptTimerFires(_, w) => Fresh(s, w.freshId)
    case _ => true
  }

  function Run(s: State, events: seq<Event>): State
    decreases |events|
  {
    if events == [] then s else Run(Step(s, events[0]), events[1..])
  }

  ghost predicate AdmissibleRun(s: State, events: seq<Event>)
    decreases |events|
  {
    events == [] || (Admissible(s, events[0]) && AdmissibleRun(Step(s, events[0]), events[1..]))
  }

  // ----- the invariant -----

  ghost predicate SettledFlow(f: Flow) {
    f.settled && f.result != Pending && !f.overallTimer && f.attemptTimer.None? && f.iqIds == {} && f.activeIq.None?
  }

  /** An unsettled flow: overall timer armed, the last issued request is its own, at most one attempt timer. */
  ghost predicate OpenFlow(s: State, f: nat)
    requires f < |s.flows|
  {
    var flow := s.flows[f];
    && !flow.settled && flow.result == Pending && flow.overallTimer
    && 1 <= flow.attempt <= flow.maxAttempts
    && |s.issued| > 0
    && var last := s.issued[|s.issued| - 1];
    && last.flow == f && last.attempt == flow.attempt && last.deadline == flow.deadline
    && flow.activeIq == (if last.delivered then Some(last.id) else None)
    && (forall id :: id in flow.iqIds <==> exists k :: 0 <= k < |s.issued| && s.issued[k].flow == f && s.issued[k].id == id)
    && (flow.attemptTimer.Some? ==>
          flow.attemptTimer.value == AttemptTimer(last.at + Window(last), flow.attempt + 1) && flow.attempt < flow.maxAttempts)
    && (!last.delivered ==> flow.attemptTimer.Some?)
  }

  /** Requests of one flow follow each other, numbered from one, each no sooner than the previous window allows. */
  ghost predicate OrderedLog(s: State) {
    && (|s.issued| > 0 ==> s.issued[0].attempt == 1)
    && (forall k :: 0 <= k < |s.issued| ==> s.issued[k].flow < |s.flows|)
    && (forall k :: 0 <= k < |s.issued| ==> 1 <= s.issued[k].attempt <= s.flows[s.issued[k].flow].maxAttempts)
    && (forall k :: 0 < k < |s.issued| ==> Follows(s.issued[k - 1], s.issued[k]))
    && (forall j, k :: 0 <= j < k < |s.issued| ==> s.issued[j].id != s.issued[k].id)
    && (forall k :: 0 <= k < |s.issued| ==> s.issued[k].id != "")
  }

  ghost predicate Follows(a: Issued, b: Issued) {
    if a.flow == b.flow then b.attempt == a.attempt + 1 && b.at >= a.at + Window(a)
    else a.flow < b.flow && b.attempt == 1
  }

  ghost predicate Inv(s: State) {
    && OrderedLog(s)
    && (forall f :: 0 <= f < |s.flows| && s.active != Some(f) ==> SettledFlow(s.flows[f]))
    && (match s.active
        case None => s.iqToFlow == map[]
        case Some(f) =>
          && f < |s.flows| && OpenFlow(s, f)
          && s.iqToFlow.Keys == s.flows[f].iqIds
          && (forall id :: id in s.iqToFlow ==> s.iqToFlow[id] == f))
  }

  /** Settling the active flow leaves every flow settled and no id known. */
  lemma SettleKeepsInv(s: State, result: FlowResult)
    requires Inv(s) && s.active.Some? && result != Pending
    ensures Inv(Settle(s, s.active.value, result))
  {
    var t := Settle(s, s.active.value, result);
    assert t.iqToFlow == map[];
  }

  /** A flow whose next attempt may start: as in Inv, but with its timer taken and its attempt expired. */
  ghost predicate ReadyForAttempt(s: State, f: nat, attempt: nat, w: World) {
    && OrderedLog(s)
    && s.active == Some(f) && f < |s.flows|
    && (forall g :: 0 <= g < |s.flows| && g != f ==> SettledFlow(s.flows[g]))
    && s.iqToFlow.Keys == s.flows[f].iqIds && (forall id :: id in s.iqToFlow ==> s.iqToFlow[id] == f)
    && (forall id :: id in s.flows[f].iqIds <==> exists k :: 0 <= k < |s.issued| && s.issued[k].flow == f && s.issued[k].id == id)
    && s.flows[f].result == Pending && !s.flows[f].settled && s.flows[f].overallTimer && s.flows[f].attemptTimer.None?
    && Fresh(s, w.freshId) && attempt >= 1
    && (forall k :: 0 <= k < |s.issued| ==> s.issued[k].flow <= f)
    && (|s.issued| > 0 ==>
          Follows(s.issued[|s.issued| - 1], Issued(f, w.freshId, attempt, w.now, s.flows[f].deadline, w.sendWorks)))
    && (|s.issued| == 0 ==> attempt == 1)
  }

  lemma AttemptGivesInv(s: State, f: nat, attempt: nat, w: World)
    requires ReadyForAttempt(s, f, attempt, w)
    ensures Inv(RunAttempt(s, f, attempt, w))
  {
    hide Inv; hide Settle; hide OrderedLog; hide AfterIssue;
    var flow := s.flows[f];
    if w.now > flow.deadline {
      GiveUp(s, f, attempt, w, Rejected("timed out"));
    } else if attempt > flow.maxAttempts {
      GiveUp(s, f, attempt, w, Rejected("failed after all attempts"));
    } else if !w.sendWorks && attempt == flow.maxAttempts {
      LastSendFails(s, f, attempt, w);
    } else {
      IssueGivesInv(s, f, attempt, w);
    }
  }

  lemma GiveUp(s: State, f: nat, attempt: nat, w: World, result: FlowResult)
    requires ReadyForAttempt(s, f, attempt, w) && result != Pending
    ensures Inv(Settle(s, f, result))
  {
    hide Follows;
    assert Settle(s, f, result).iqToFlow == map[];
  }

  /** The state after a request was handed to `send`. */
  ghost function Issue(s: State, f: nat, attempt: nat, w: World): State
    requires f < |s.flows|
  {
    State(
      s.flows[f := AfterIssue(s.flows[f], attempt, w)], s.active, s.iqToFlow[w.freshId := f],
      s.issued + [Issued(f, w.freshId, attempt, w.now, s.flows[f].deadline, w.sendWorks)])
  }

  lemma IssueOpens(s: State, f: nat, attempt: nat, w: World)
    requires ReadyForAttempt(s, f, attempt, w) && attempt <= s.flows[f].maxAttempts
    requires w.sendWorks || attempt < s.flows[f].maxAttempts
    ensures OpenFlow(Issue(s, f, attempt, w), f)
  {
    IssueKeepsLog(s, f, attempt, w);
    hide OrderedLog; hide RetryDelay;
    var flow := AfterIssue(s.flows[f], attempt, w);
    var last := Issued(f, w.freshId, attempt, w.now, flow.deadline, w.sendWorks);
    assert Issue(s, f, attempt, w).issued[|s.issued|] == last;
    assert Window(last) == Window(last.(flow := 0));
  }

  lemma IssueGivesInv(s: State, f: nat, attempt: nat, w: World)
    requires ReadyForAttempt(s, f, attempt, w) && attempt <= s.flows[f].maxAttempts
    requires w.sendWorks || attempt < s.flows[f].maxAttempts
    ensures Inv(Issue(s, f, attempt, w))
  {
    IssueKeepsLog(s, f, attempt, w);
    IssueOpens(s, f, attempt, w);
    IssueMaps(s, f, attempt, w);
    IssueSparesOthers(s, f, attempt, w);
    hide OrderedLog; hide OpenFlow; hide Window; hide AfterIssue; hide SettledFlow; hide Issue; hide ReadyForAttempt;
  }

  /** The new id is known for its flow, like the others. */
  lemma IssueMaps(s: State, f: nat, attempt: nat, w: World)
    requires ReadyForAttempt(s, f, attempt, w)
    ensures
      var t := Issue(s, f, attempt, w);
      && t.active == Some(f) && f < |t.flows|
      && t.iqToFlow.Keys == t.flows[f].iqIds && (forall id :: id in t.iqToFlow ==> t.iqToFlow[id] == f)
  {
    hide OrderedLog; hide SettledFlow; hide Window; hide Fresh; hide Follows;
    assert Issue(s, f, attempt, w).iqToFlow.Keys == s.iqToFlow.Keys + {w.freshId};
  }

  lemma IssueSparesOthers(s: State, f: nat, attempt: nat, w: World)
    requires ReadyForAttempt(s, f, attempt, w)
    ensures
      var t := Issue(s, f, attempt, w);
      forall g :: 0 <= g < |t.flows| && t.active != Some(g) ==> SettledFlow(t.flows[g])
  {
    hide OrderedLog; hide SettledFlow; hide AfterIssue; hide Fresh; hide Follows;
  }

  lemma LastSendFails(s: State, f: nat, attempt: nat, w: World)
    requires ReadyForAttempt(s, f, attempt, w) && attempt == s.flows[f].maxAttempts && !w.sendWorks
    ensures Inv(Settle(Issue(s, f, attempt, w), f, Rejected("send failed")))
  {
    IssueKeepsLog(s, f, attempt, w);
    hide Window; hide Follows;
    var t := Settle(Issue(s, f, attempt, w), f, Rejected("send failed"));
    assert t.iqToFlow == map[];
    assert OrderedLog(t);
  }

  /** Appending one request keeps the log ordered, and the flow's ids are those issued for it. */
  lemma IssueKeepsLog(s: State, f: nat, attempt: nat, w: World)
    requires ReadyForAttempt(s, f, attempt, w) && attempt <= s.flows[f].maxAttempts
    ensures
      var t := Issue(s, f, attempt, w);
      && OrderedLog(t)
      && (forall id :: id in t.flows[f].iqIds
            <==> exists k :: 0 <= k < |t.issued| && t.issued[k].flow == f && t.issued[k].id == id)
  {
    IssueOrdersLog(s, f, attempt, w);
    hide Window; hide RetryDelay; hide OrderedLog; hide SettledFlow; hide Follows;
    var t := Issue(s, f, attempt, w);
    var n := |s.issued|;
    forall id
      ensures id in t.flows[f].iqIds
        <==> exists k :: 0 <= k < |t.issued| && t.issued[k].flow == f && t.issued[k].id == id
    {
      if id == w.freshId {
        assert t.issued[n].id == id;
      } else if id in s.flows[f].iqIds {
        var k :| 0 <= k < n && s.issued[k].flow == f && s.issued[k].id == id;
        assert t.issued[k] == s.issued[k];
      }
    }
  }

  lemma IssueOrdersLog(s: State, f: nat, attempt: nat, w: World)
    requires ReadyForAttempt(s, f, attempt, w) && attempt <= s.flows[f].maxAttempts
    ensures OrderedLog(Issue(s, f, attempt, w))
  {
    hide Window; hide RetryDelay; hide SettledFlow;
    assert Issue(s, f, attempt, w).flows[f].maxAttempts == s.flows[f].maxAttempts;
  }

  lemma StartKeepsInv(s: State, r: Request, w: World)
    requires Inv(s) && Fresh(s, w.freshId) && !TurnedAway(s, r)
    ensures Inv(StartFlow(s, r, w))
  {
    hide RunAttempt;
    var f := |s.flows|;
    var flow := Flow(r.phone.value, {}, None, 0, r.maxAttempts, w.now + r.timeoutMs, true, None, false, Pending);
    AttemptGivesInv(s.(flows := s.flows + [flow], active := Some(f)), f, 1, w);
  }

  lemma RetryKeepsInv(s: State, f: nat, w: World)
    requires Inv(s) && Fresh(s, w.freshId) && AttemptDue(s, f, w.now)
    ensures Inv(Step(s, AttemptTimerFires(f, w)))
  {
    hide RunAttempt;
    assert !SettledFlow(s.flows[f]);
    var flow := s.flows[f];
    forall k | 0 <= k < |s.issued| - 1 ensures s.issued[k].flow <= f {
      LogIsSpaced(s, k, |s.issued| - 1);
    }
    AttemptGivesInv(s.(flows := s.flows[f := flow.(attemptTimer := None, activeIq := None)]), f, flow.attemptTimer.value.next, w);
  }

  lemma StepKeepsInv(s: State, e: Event)
    requires Inv(s) && Admissible(s, e)
    ensures Inv(Step(s, e))
  {
    hide OrderedLog; hide RunAttempt; hide StartFlow; hide Settle;
    match e {
      case RequestCode(r, w) =>
        if !TurnedAway(s, r) {
          StartKeepsInv(s, r, w);
        }
      case Payload(p) =>
        if Target(s, p).Some? {
          SettleKeepsInv(s, Verdict(p));
        }
      case OverallTimerFires(f, w) =>
        if OverallDue(s, f, w.now) {
          assert !SettledFlow(s.flows[f]);
          SettleKeepsInv(s, Rejected("timed out"));
        }
      case AttemptTimerFires(f, w) =>
        if AttemptDue(s, f, w.now) {
          RetryKeepsInv(s, f, w);
        }
      case CancelAll(reason) =>
        if s.active.Some? {
          SettleKeepsInv(s, Rejected(reason));
        }
    }
  }

  lemma {:induction false} RunKeepsInv(s: State, events: seq<Event>)
    requires Inv(s) && AdmissibleRun(s, events)
    ensures Inv(Run(s, events))
    decreases |events|
  {
    if events != [] {
      StepKeepsInv(s, events[0]);
      RunKeepsInv(Step(s, events[0]), events[1..]);
    }
  }

  // ----- main results -----

  ghost predicate IssuedForActive(s: State, id: Id) {
    exists k :: 0 <= k < |s.issued| && s.issued[k].id == id && s.active == Some(s.issued[k].flow)
  }

  /** What a reader of the controller's promises may rely on in every reachable state. */
  ghost predicate Promises(s: State) {
    // at most one unsettled flow, and it is the active one
    && (forall f :: 0 <= f < |s.flows| ==> (!s.flows[f].settled <==> s.active == Some(f)))
    // ids are known exactly for the requests of the active flow
    && (forall id :: id in s.iqToFlow <==> IssuedForActive(s, id))
    && (forall id :: id in s.iqToFlow ==> s.active == Some(s.iqToFlow[id]))
    // an unsettled flow always has its overall timer, a settled one has neither timer nor ids
    && (forall f :: 0 <= f < |s.flows| ==> (s.flows[f].overallTimer <==> !s.flows[f].settled))
    && (forall f :: 0 <= f < |s.flows| && s.flows[f].settled ==>
          s.flows[f].attemptTimer.None? && s.flows[f].iqIds == {} && s.flows[f].result != Pending)
    // every flow issues at most maxAttempts requests, each later one after the window of the one before
    && (forall k :: 0 <= k < |s.issued| ==>
          s.issued[k].flow < |s.flows| && 1 <= s.issued[k].attempt <= s.flows[s.issued[k].flow].maxAttempts)
    && (forall j, k :: 0 <= j < k < |s.issued| && s.issued[j].flow == s.issued[k].flow ==>
          s.issued[j].attempt < s.issued[k].attempt && s.issued[k].at >= s.issued[j].at + Window(s.issued[j]))
  }

  lemma {:induction false} LogIsSpaced(s: State, j: nat, k: nat)
    requires OrderedLog(s) && j < k < |s.issued|
    ensures s.issued[j].flow <= s.issued[k].flow
    ensures s.issued[j].flow == s.issued[k].flow ==>
      s.issued[j].attempt < s.issued[k].attempt && s.issued[k].at >= s.issued[j].at + Window(s.issued[j])
    decreases k
  {
    assert Follows(s.issued[k - 1], s.issued[k]);
    if j < k - 1 {
      LogIsSpaced(s, j, k - 1);
      WindowIsNatural(s.issued[k - 1]);
    }
  }

  lemma WindowIsNatural(i: Issued)
    ensures Window(i) >= 0
  {
  }

  lemma InvGivesPromises(s: State)
    requires Inv(s)
    ensures Promises(s)
  {
    forall f | 0 <= f < |s.flows| && s.flows[f].settled
      ensures s.flows[f].attemptTimer.None? && s.flows[f].iqIds == {} && s.flows[f].result != Pending && !s.flows[f].overallTimer
    {
      assert SettledFlow(s.flows[f]);
    }
    forall j, k | 0 <= j < k < |s.issued| && s.issued[j].flow == s.issued[k].flow
      ensures s.issued[j].attempt < s.issued[k].attempt && s.issued[k].at >= s.issued[j].at + Window(s.issued[j])
    {
      LogIsSpaced(s, j, k);
    }
    IdsOfActive(s);
  }

  lemma IdsOfActive(s: State)
    requires Inv(s)
    ensures forall id :: id in s.iqToFlow <==> IssuedForActive(s, id)
  {
    hide OrderedLog; hide Window;
    forall id ensures id in s.iqToFlow <==> IssuedForActive(s, id) {
      if s.active.Some? {
        var f := s.active.value;
        assert id in s.iqToFlow <==> id in s.flows[f].iqIds;
        if id in s.iqToFlow {
          var k :| 0 <= k < |s.issued| && s.issued[k].flow == f && s.issued[k].id == id;
          assert s.active == Some(s.issued[k].flow);
        }
      }
    }
  }

  /** Safety and pacing over every admissible run. */
  lemma ControllerSafety(events: seq<Event>)
    requires AdmissibleRun(EMPTY, events)
    ensures Promises(Run(EMPTY, events))
  {
    assert Inv(EMPTY);
    hide Inv; hide Promises; hide AdmissibleRun; hide Run;
    RunKeepsInv(EMPTY, events);
    InvGivesPromises(Run(EMPTY, events));
  }

  /** Nothing changes a settled flow or sends for it again, in any run; so each flow settles at most once. */
  lemma {:induction false} SettledForever(s: State, events: seq<Event>, f: nat)
    requires Inv(s) && AdmissibleRun(s, events) && f < |s.flows| && s.flows[f].settled
    ensures
      var t := Run(s, events);
      && f < |t.flows| && t.flows[f] == s.flows[f]
      && |s.issued| <= |t.issued| && t.issued[..|s.issued|] == s.issued
      && (forall k :: |s.issued| <= k < |t.issued| ==> t.issued[k].flow != f)
    decreases |events|
  {
    if events != [] {
      var s1 := Step(s, events[0]);
      StepKeepsInv(s, events[0]);
      StepSparesSettled(s, events[0], f);
      SettledForever(s1, events[1..], f);
      var t := Run(s, events);
      assert t.issued[..|s.issued|] == t.issued[..|s1.issued|][..|s.issued|];
      forall k | |s.issued| <= k < |t.issued| ensures t.issued[k].flow != f {
        assert k < |s1.issued| ==> t.issued[k] == t.issued[..|s1.issued|][k];
      }
    }
  }

  lemma StepSparesSettled(s: State, e: Event, f: nat)
    requires Inv(s) && f < |s.flows| && s.flows[f].settled
    ensures
      var t := Step(s, e);
      && f < |t.flows| && t.flows[f] == s.flows[f]
      && |s.issued| <= |t.issued| && t.issued[..|s.issued|] == s.issued
      && (forall k :: |s.issued| <= k < |t.issued| ==> t.issued[k].flow != f)
  {
    hide OrderedLog; hide Window;
    assert SettledFlow(s.flows[f]);
  }

  /**
   Exactly which payloads settle a flow: those with an id that was issued for the unsettled flow,
   and, while some attempt is in flight, only with the id of that attempt. All others change nothing.
   */
  lemma PayloadSettlesExactly(s: State, p: Parsed)
    requires Inv(s)
    ensures
      var t := Step(s, Payload(p));
      var own := p.iqId.Some? && IssuedForActive(s, p.iqId.value);
      var current := s.active.Some? && (s.flows[s.active.value].activeIq.None? || s.flows[s.active.value].activeIq == p.iqId);
      if own && current
        then t.active == None && t.flows == s.flows[s.active.value := t.flows[s.active.value]]
          && t.flows[s.active.value].settled && t.flows[s.active.value].result == Verdict(p) && t.issued == s.issued
        else t == s
  {
    if s.active.Some? {
      var f := s.active.value;
      assert s.flows[f].iqIds == s.iqToFlow.Keys;
    }
  }

  /**
   What a payload settles its flow with: a code resolves it, in the form FormatExactly describes; an
   error without a code, or nothing at all, rejects it.
   */
  lemma PayloadResultExactly(s: State, p: Parsed)
    requires Inv(s) && Step(s, Payload(p)) != s
    ensures s.active.Some? && s.active.value < |s.flows|
    ensures
      var result := Step(s, Payload(p)).flows[s.active.value].result;
      && (result.Resolved? <==> Given(p.code))
      && (Given(p.code) && '-' in p.code.value ==> result.code == p.code.value)
      && (Given(p.code) && '-' !in p.code.value && |Clean(p.code.value)| == 8 ==>
            |result.code| == 9 && result.code[4] == '-' && result.code[..4] + result.code[5..] == Clean(p.code.value))
      && (Given(p.code) && '-' !in p.code.value && |Clean(p.code.value)| != 8 ==> result.code == Clean(p.code.value))
      && (!Given(p.code) && Given(p.errorCode) ==> result == Rejected("pairing error " + p.errorCode.value))
      && (!Given(p.code) && !Given(p.errorCode) ==> result == Rejected("UNEXPECTED_PAIRING_RESPONSE"))
  {
    PayloadSettlesExactly(s, p);
    if Given(p.code) {
      FormatExactly(p.code.value);
    }
    hide Inv; hide FormatCode; hide Clean;
  }

  /** Only the attempt in flight may resolve, as the controller's comments promise. */
  ghost predicate OnlyInFlightResolves(s: State) {
    forall p: Parsed :: Step(s, Payload(p)) != s ==>
      s.active.Some? && s.active.value < |s.flows| && p.iqId.Some? && s.flows[s.active.value].activeIq == p.iqId
  }

  /** That promise is kept in a reachable state exactly when an attempt is in flight or no flow is active. */
  lemma InFlightExactly(s: State)
    requires Inv(s)
    ensures OnlyInFlightResolves(s) <==> s.active.None? || s.flows[s.active.value].activeIq.Some?
  {
    if s.active.Some? && s.flows[s.active.value].activeIq.None? {
      var f, last := s.active.value, s.issued[|s.issued| - 1];
      var p := Parsed(Some(last.id), Some("ABCD-EFGH"), None);
      assert IssuedForActive(s, last.id);
      PayloadSettlesExactly(s, p);
      assert Step(s, Payload(p)).flows[f].settled && !s.flows[f].settled;
    } else {
      forall p: Parsed | Step(s, Payload(p)) != s
        ensures s.active.Some? && p.iqId.Some? && s.flows[s.active.value].activeIq == p.iqId
      {
        PayloadSettlesExactly(s, p);
      }
    }
  }

  /** Progress: when the overall timer of an unsettled flow fires, that flow settles. */
  lemma OverallTimeoutSettles(s: State, f: nat, w: World)
    requires Inv(s) && f < |s.flows| && !s.flows[f].settled && w.now >= s.flows[f].deadline
    ensures Step(s, OverallTimerFires(f, w)).flows[f].settled
    ensures Step(s, OverallTimerFires(f, w)).flows[f].result == Rejected("timed out")
    ensures Step(s, OverallTimerFires(f, w)).active == None
  {
  }

  /** Before its deadline, or without being armed, the overall timer does nothing. */
  lemma OverallTimerWaits(s: State, f: nat, w: World)
    requires f < |s.flows| && (w.now < s.flows[f].deadline || !s.flows[f].overallTimer)
    ensures Step(s, OverallTimerFires(f, w)) == s
  {
  }

  /**
   The comment on the controller promises that only the attempt in flight may resolve. That fails
   while a retry waits after a failed send: the id of an earlier, expired attempt is then accepted,
   although it is not the active id.
   */
  lemma ExpiredAttemptAccepted()
    ensures exists events, p: Parsed, first: Id ::
      && AdmissibleRun(EMPTY, events) && p.iqId == Some(first)
      && var s := Run(EMPTY, events);
      && Locked(s) && s.flows[s.active.value].activeIq != Some(first) && s.flows[s.active.value].attempt == 2
      && Step(s, Payload(p)).flows[s.active.value].result == Resolved("ABCD-EFGH")
  {
    var request := RequestCode(Request(true, false, Some("628123456789"), 60000, 3), World(0, "iq1", true));
    var retry := AttemptTimerFires(0, World(5000, "iq2", false));
    var events := [request, retry];
    var p := Parsed(Some("iq1"), Some("ABCD-EFGH"), None);
    var s1 := Step(EMPTY, request);
    var s2 := Step(s1, retry);
    assert Backoff(1) == 500 && Backoff(2) == 1000;
    assert events[1..] == [retry] && [retry][1..] == [];
    assert s1.issued == [Issued(0, "iq1", 1, 0, 60000, true)];
    assert Fresh(EMPTY, "iq1") && Fresh(s1, "iq2");
    assert AdmissibleRun(s1, [retry]);
    assert Run(s1, [retry]) == Run(s2, []) == s2;
    assert Run(EMPTY, events) == s2;
    assert s2.flows[0].attempt == 2 && s2.flows[0].activeIq == None;
    assert Step(s2, Payload(p)).flows[0].result == Resolved("ABCD-EFGH");
  }
}
