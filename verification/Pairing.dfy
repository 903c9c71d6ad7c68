/**
 The pairing controller: one pairing flow at a time, a fresh id per attempt, sequential retries,
 and cleanup on success, error, timeout and cancel. A flow is a record, and its index in `flows`
 is its identity; clock readings, new ids and the fate of a send are inputs of an event.
 */
module Pairing {
  import opened Prelude

  type Id = string

  datatype FlowResult = Pending | Resolved(code: string) | Rejected(reason: string)

  /** The timer that starts attempt `next`. */
  datatype AttemptTimer = AttemptTimer(due: int, next: nat)

  datatype Flow = Flow(
    phone: string, iqIds: set<Id>, activeIq: Option<Id>, attempt: nat, maxAttempts: int,
    deadline: int, overallTimer: bool, attemptTimer: Option<AttemptTimer>, settled: bool, result: FlowResult)

  /** One request handed to `send`, and whether the send went through. */
  datatype Issued = Issued(flow: nat, id: Id, attempt: nat, at: int, deadline: int, delivered: bool)

  datatype State = State(flows: seq<Flow>, active: Option<nat>, iqToFlow: map<Id, nat>, issued: seq<Issued>)

  datatype Request = Request(hasTransport: bool, registered: bool, phone: Option<string>, timeoutMs: int, maxAttempts: int)

  /** What the pairing parser finds in a payload. */
  datatype Parsed = Parsed(iqId: Option<Id>, code: Option<string>, errorCode: Option<string>)

  /** The outside world during one event. */
  datatype World = World(now: int, freshId: Id, sendWorks: bool)

  datatype Event =
    | RequestCode(request: Request, world: World)
    | Payload(parsed: Parsed)
    | OverallTimerFires(flow: nat, world: World)
    | AttemptTimerFires(flow: nat, world: World)
    | CancelAll(reason: string)

  const EMPTY := State([], None, map[], [])

  // ----- delays -----

  function Backoff(attempt: nat): (d: nat)
    ensures 500 <= d
    decreases attempt
  {
    if attempt <= 1 then 500 else 2 * Backoff(attempt - 1)
  }

  function RetryDelay(attempt: nat): nat {
    Min(Backoff(attempt), 8000)
  }

  /** Half a second, doubled per attempt, capped at eight seconds. */
  lemma {:induction false} RetryDelays(attempt: nat)
    ensures attempt <= 1 ==> RetryDelay(attempt) == 500
    ensures 1 < attempt < 5 ==> RetryDelay(attempt) == 2 * RetryDelay(attempt - 1)
    ensures attempt >= 5 ==> RetryDelay(attempt) == 8000
    decreases attempt
  {
    if attempt > 5 {
      RetryDelays(attempt - 1);
    } else if attempt > 1 {
      assert Backoff(2) == 1000 && Backoff(3) == 2000 && Backoff(4) == 4000 && Backoff(5) == 8000;
    }
  }

  /** How long an attempt has before the next one may start. */
  function Window(i: Issued): int {
    if i.delivered then Min(Max(0, i.deadline - i.at), Max(RetryDelay(i.attempt), 5000))
    else RetryDelay(i.attempt)
  }

  // ----- transitions -----

  function Settle(s: State, f: nat, result: FlowResult): State
    requires f < |s.flows|
  {
    var flow := s.flows[f];
    if flow.settled then s else
    State(
      s.flows[f := flow.(settled := true, overallTimer := false, attemptTimer := None,
                         iqIds := {}, activeIq := None, result := result)],
      if s.active == Some(f) then None else s.active,
      s.iqToFlow - flow.iqIds,
      s.issued)
  }

  /** The flow right after a request was handed to `send`. */
  function AfterIssue(flow: Flow, attempt: nat, w: World): Flow {
    var issue := Issued(0, w.freshId, attempt, w.now, flow.deadline, w.sendWorks);
    var next := Some(AttemptTimer(w.now + Window(issue), attempt + 1));
    var sent := flow.(attempt := attempt, iqIds := flow.iqIds + {w.freshId},
                      activeIq := if w.sendWorks then Some(w.freshId) else None);
    if attempt < flow.maxAttempts && (!w.sendWorks || Window(issue) > 0) then sent.(attemptTimer := next) else sent
  }

  function RunAttempt(s: State, f: nat, attempt: nat, w: World): State
    requires f < |s.flows|
  {
    var flow := s.flows[f];
    if flow.settled then s
    else if w.now > flow.deadline then Settle(s, f, Rejected("timed out"))
    else if attempt > flow.maxAttempts then Settle(s, f, Rejected("failed after all attempts"))
    else
      var s1 := State(
        s.flows[f := AfterIssue(flow, attempt, w)], s.active, s.iqToFlow[w.freshId := f],
        s.issued + [Issued(f, w.freshId, attempt, w.now, flow.deadline, w.sendWorks)]);
      if !w.sendWorks && attempt >= flow.maxAttempts then Settle(s1, f, Rejected("send failed")) else s1
  }

  /** Does an unsettled flow hold the lock? */
  predicate Locked(s: State) {
    s.active.Some? && s.active.value < |s.flows| && !s.flows[s.active.value].settled
  }

  /** Would this request be turned away without starting a flow? */
  predicate TurnedAway(s: State, r: Request) {
    !r.hasTransport || r.registered || Locked(s) || r.phone.None?
  }

  function StartFlow(s: State, r: Request, w: World): State
    requires r.phone.Some?
  {
    var flow := Flow(r.phone.value, {}, None, 0, r.maxAttempts, w.now + r.timeoutMs, true, None, false, Pending);
    RunAttempt(s.(flows := s.flows + [flow], active := Some(|s.flows|)), |s.flows|, 1, w)
  }

  /** A string that counts as true: present and not empty. */
  predicate Given(s: Option<string>) {
    s.Some? && s.value != ""
  }

  predicate IsSpace(ch: char) {
    ch in " \t\n\r\U{000b}\U{000c}"
  }

  /** Without white space, and in upper case. */
  function Clean(raw: string): string {
    if raw == "" then ""
    else if IsSpace(raw[0]) then Clean(raw[1..])
    else [if 'a' <= raw[0] <= 'z' then 'A' + (raw[0] - 'a') else raw[0]] + Clean(raw[1..])
  }

  function FormatCode(raw: string): string {
    if '-' in raw then raw
    else if |Clean(raw)| == 8 then Clean(raw)[..4] + "-" + Clean(raw)[4..]
    else Clean(raw)
  }

  /** The flow that a payload may settle: its id is known, and is the active one if there is one. */
  function Target(s: State, p: Parsed): Option<nat> {
    if !Given(p.iqId) || p.iqId.value !in s.iqToFlow then None else
    var f := s.iqToFlow[p.iqId.value];
    if f >= |s.flows| || s.flows[f].settled then None
    else if Given(s.flows[f].activeIq) && s.flows[f].activeIq != p.iqId then None
    else Some(f)
  }

  function Verdict(p: Parsed): FlowResult {
    if Given(p.errorCode) && !Given(p.code) then Rejected("pairing error " + p.errorCode.value)
    else if Given(p.code) then Resolved(FormatCode(p.code.value))
    else Rejected("UNEXPECTED_PAIRING_RESPONSE")
  }

  /** A timer fires only while armed and due. */
  predicate OverallDue(s: State, f: nat, now: int) {
    f < |s.flows| && s.flows[f].overallTimer && now >= s.flows[f].deadline
  }

  predicate AttemptDue(s: State, f: nat, now: int) {
    f < |s.flows| && s.flows[f].attemptTimer.Some? && now >= s.flows[f].attemptTimer.value.due
  }

  function Step(s: State, e: Event): State {
    match e
    case RequestCode(r, w) => if TurnedAway(s, r) then s else StartFlow(s, r, w)
    case Payload(p) =>
      (match Target(s, p)
       case None => s
       case Some(f) => Settle(s, f, Verdict(p)))
    case OverallTimerFires(f, w) => if OverallDue(s, f, w.now) then Settle(s, f, Rejected("timed out")) else s
    case AttemptTimerFires(f, w) =>
      if AttemptDue(s, f, w.now) then
        var flow := s.flows[f];
        var idle := flow.(attemptTimer := None, activeIq := None);
        if flow.settled then s.(flows := s.flows[f := flow.(attemptTimer := None)])
        else RunAttempt(s.(flows := s.flows[f := idle]), f, flow.attemptTimer.value.next, w)
      else s
    case CancelAll(reason) =>
      if s.active.Some? && s.active.value < |s.flows| then Settle(s, s.active.value, Rejected(reason)) else s
  }

  // ----- the controller object -----

  class PairingController {
    var flows: seq<Flow>
    var active: Option<nat>
    var iqToFlow: map<Id, nat>
    ghost var issued: seq<Issued>

    ghost function View(): State
      reads this
    {
      State(flows, active, iqToFlow, issued)
    }

    constructor ()
      ensures View() == EMPTY
    {
      flows, active, iqToFlow, issued := [], None, map[], [];
    }

    /** Clears both timers, forgets the flow's ids and frees the lock. */
    method CleanupFlow(f: nat)
      requires f < |flows|
      modifies this
      ensures flows == old(flows)[f := old(flows)[f].(overallTimer := false, attemptTimer := None, iqIds := {}, activeIq := None)]
      ensures iqToFlow == old(iqToFlow) - old(flows)[f].iqIds
      ensures active == if old(active) == Some(f) then None else old(active)
      ensures issued == old(issued)
    {
      var ids := flows[f].iqIds;
      var left := ids;
      while left != {}
        invariant left <= ids && iqToFlow == old(iqToFlow) - (ids - left)
        invariant flows == old(flows) && active == old(active) && issued == old(issued)
        decreases left
      {
        var id :| id in left;
        iqToFlow := iqToFlow - {id};
        left := left - {id};
      }
      flows := flows[f := flows[f].(overallTimer := false, attemptTimer := None, iqIds := {}, activeIq := None)];
      if active == Some(f) {
        active := None;
      }
    }

    method SettleFlow(f: nat, result: FlowResult)
      requires f < |flows|
      modifies this
      ensures View() == Settle(old(View()), f, result)
    {
      if flows[f].settled {
        return;
      }
      flows := flows[f := flows[f].(settled := true)];
      CleanupFlow(f);
      flows := flows[f := flows[f].(result := result)];
    }

    method Attempt(f: nat, attempt: nat, w: World)
      requires f < |flows|
      modifies this
      ensures View() == RunAttempt(old(View()), f, attempt, w)
    {
      if flows[f].settled {
        return;
      }
      if w.now > flows[f].deadline {
        SettleFlow(f, Rejected("timed out"));
        return;
      }
      if attempt > flows[f].maxAttempts {
        SettleFlow(f, Rejected("failed after all attempts"));
        return;
      }
      var flow := flows[f];
      var maxAttempts := flow.maxAttempts;
      flow := flow.(attempt := attempt);
      flow := flow.(iqIds := flow.iqIds + {w.freshId});
      flow := flow.(activeIq := Some(w.freshId));
      iqToFlow := iqToFlow[w.freshId := f];
      issued := issued + [Issued(f, w.freshId, attempt, w.now, flow.deadline, w.sendWorks)];
      if !w.sendWorks {
        flow := flow.(activeIq := None);
        if attempt < maxAttempts {
          flow := flow.(attemptTimer := Some(AttemptTimer(w.now + RetryDelay(attempt), attempt + 1)));
        }
        flows := flows[f := flow];
        if attempt >= maxAttempts {
          SettleFlow(f, Rejected("send failed"));
        }
        return;
      }
      var remaining := Max(0, flow.deadline - w.now);
      var window := Min(remaining, Max(RetryDelay(attempt), 5000));
      if attempt < maxAttempts && window > 0 {
        flow := flow.(attemptTimer := Some(AttemptTimer(w.now + window, attempt + 1)));
      }
      flows := flows[f := flow];
    }

    method Request(r: Request, w: World) returns (started: bool)
      modifies this
      ensures View() == Step(old(View()), RequestCode(r, w))
      ensures started == !TurnedAway(old(View()), r)
    {
      if !r.hasTransport || r.registered {
        return false;
      }
      if active.Some? && active.value < |flows| && !flows[active.value].settled {
        return false;
      }
      if r.phone.None? {
        return false;
      }
      var flow := Flow(r.phone.value, {}, None, 0, r.maxAttempts, w.now + r.timeoutMs, true, None, false, Pending);
      flows := flows + [flow];
      active := Some(|flows| - 1);
      Attempt(|flows| - 1, 1, w);
      return true;
    }

    method OnPayload(p: Parsed)
      modifies this
      ensures View() == Step(old(View()), Payload(p))
    {
      if !Given(p.iqId) || p.iqId.value !in iqToFlow {
        return;
      }
      var f := iqToFlow[p.iqId.value];
      if f >= |flows| || flows[f].settled {
        return;
      }
      if Given(flows[f].activeIq) && flows[f].activeIq != p.iqId {
        return;
      }
      if Given(p.errorCode) && !Given(p.code) {
        SettleFlow(f, Rejected("pairing error " + p.errorCode.value));
        return;
      }
      if Given(p.code) {
        SettleFlow(f, Resolved(FormatCode(p.code.value)));
        return;
      }
      SettleFlow(f, Rejected("UNEXPECTED_PAIRING_RESPONSE"));
    }

    method OnOverallTimer(f: nat, w: World)
      modifies this
      ensures View() == Step(old(View()), OverallTimerFires(f, w))
    {
      if f < |flows| && flows[f].overallTimer && w.now >= flows[f].deadline {
        SettleFlow(f, Rejected("timed out"));
      }
    }

    method OnAttemptTimer(f: nat, w: World)
      modifies this
      ensures View() == Step(old(View()), AttemptTimerFires(f, w))
    {
      if f < |flows| && flows[f].attemptTimer.Some? && w.now >= flows[f].attemptTimer.value.due {
        var next := flows[f].attemptTimer.value.next;
        flows := flows[f := flows[f].(attemptTimer := None)];
        if flows[f].settled {
          return;
        }
        flows := flows[f := flows[f].(activeIq := None)];
        Attempt(f, next, w);
      }
    }

    method Cancel(reason: string)
      modifies this
      ensures View() == Step(old(View()), CancelAll(reason))
    {
      if active.Some? && active.value < |flows| {
        SettleFlow(active.value, Rejected(reason));
      }
    }

    method IsBusy() returns (busy: bool)
      ensures busy <==> Locked(View())
    {
      busy := active.Some? && active.value < |flows| && !flows[active.value].settled;
    }

    method IsActiveIq(id: Option<Id>) returns (r: bool)
      ensures r <==> Given(id) && Locked(View()) && flows[active.value].activeIq == id
    {
      if !Given(id) || active.None? || active.value >= |flows| || flows[active.value].settled {
        return false;
      }
      return flows[active.value].activeIq == id;
    }
  }

  // ----- codes, delays and outcomes spelled out -----

  const LOWER := "abcdefghijklmnopqrstuvwxyz"
  const UPPER := "ABCDEFGHIJKLMNOPQRSTUVWXYZ"

  /** What cleaning makes of one character: white space goes, a small letter becomes the capital one. */
  lemma CleanOne(ch: char)
    ensures ch in [' ', '\t', '\n', '\r', '\U{000b}', '\U{000c}'] ==> Clean([ch]) == ""
    ensures forall i :: 0 <= i < 26 && ch == LOWER[i] ==> Clean([ch]) == [UPPER[i]]
    ensures ch !in [' ', '\t', '\n', '\r', '\U{000b}', '\U{000c}'] && ch !in LOWER ==> Clean([ch]) == [ch]
  {
    assert [ch][1..] == "" && Clean("") == "";
    forall i | 0 <= i < 26 ensures LOWER[i] == 'a' + i as char && UPPER[i] == 'A' + i as char {
      Letters(i);
    }
    if 'a' <= ch <= 'z' {
      assert LOWER[ch as int - 97] == ch;
    }
  }

  lemma Letters(i: nat)
    requires i < 26
    ensures LOWER[i] == 'a' + i as char && UPPER[i] == 'A' + i as char
  {
  }

  /** Cleaning works character by character. */
  lemma {:induction false} CleanAppends(a: string, b: string)
    ensures Clean(a + b) == Clean(a) + Clean(b)
  {
    if a == "" {
      assert a + b == b;
    } else {
      assert (a + b)[1..] == a[1..] + b;
      CleanAppends(a[1..], b);
    }
  }

  /** The code handed out: as it came if it has a dash, else cleaned, eight characters split four and four. */
  lemma FormatExactly(raw: string)
    ensures '-' in raw ==> FormatCode(raw) == raw
    ensures '-' !in raw && |Clean(raw)| == 8 ==>
      var code := FormatCode(raw);
      |code| == 9 && code[4] == '-' && code[..4] + code[5..] == Clean(raw)
    ensures '-' !in raw && |Clean(raw)| != 8 ==> FormatCode(raw) == Clean(raw)
  {
    var u := Clean(raw);
    if |u| == 8 {
      assert (u[..4] + "-" + u[4..])[5..] == u[4..];
      assert u[..4] + u[4..] == u;
    }
  }

  /** How long the next attempt is held back, in milliseconds. */
  function HeldBack(attempt: nat): nat {
    if attempt <= 1 then 500 else if attempt == 2 then 1000 else if attempt == 3 then 2000
    else if attempt == 4 then 4000 else 8000
  }

  lemma WindowExactly(i: Issued)
    ensures RetryDelay(i.attempt) == HeldBack(i.attempt)
    ensures !i.delivered ==> Window(i) == HeldBack(i.attempt)
    ensures i.delivered && i.at <= i.deadline ==>
      Window(i) == if i.deadline - i.at < 5000 || (i.attempt >= 5 && i.deadline - i.at < 8000) then i.deadline - i.at
                   else if i.attempt >= 5 then 8000 else 5000
  {
    RetryDelays(i.attempt);
    RetryDelays(1);
    RetryDelays(2);
    RetryDelays(3);
    RetryDelays(4);
  }

  /** Every branch of an attempt, with what it leaves behind. */
  lemma AttemptExactly(s: State, f: nat, attempt: nat, w: World)
    requires f < |s.flows| && !s.flows[f].settled
    ensures
      var (flow, t) := (s.flows[f], RunAttempt(s, f, attempt, w));
      && |t.flows| == |s.flows| && (forall g :: 0 <= g < |s.flows| && g != f ==> t.flows[g] == s.flows[g])
      && (if w.now > flow.deadline then
            t.flows[f].settled && t.flows[f].result == Rejected("timed out") && t.issued == s.issued
          else if attempt > flow.maxAttempts then
            t.flows[f].settled && t.flows[f].result == Rejected("failed after all attempts") && t.issued == s.issued
          else
            && t.issued == s.issued + [Issued(f, w.freshId, attempt, w.now, flow.deadline, w.sendWorks)]
            && (if w.sendWorks then
                  && !t.flows[f].settled && t.flows[f].activeIq == Some(w.freshId) && t.flows[f].attempt == attempt
                  && t.iqToFlow == s.iqToFlow[w.freshId := f] && t.active == s.active
                  && var window := Min(flow.deadline - w.now, if attempt >= 5 then 8000 else 5000);
                  t.flows[f].attemptTimer ==
                    if attempt < flow.maxAttempts && window > 0 then Some(AttemptTimer(w.now + window, attempt + 1))
                    else flow.attemptTimer
                else if attempt < flow.maxAttempts then
                  && !t.flows[f].settled && t.flows[f].activeIq == None && t.flows[f].attempt == attempt
                  && t.iqToFlow == s.iqToFlow[w.freshId := f] && t.active == s.active
                  && t.flows[f].attemptTimer == Some(AttemptTimer(w.now + HeldBack(attempt), attempt + 1))
                else t.flows[f].settled && t.flows[f].result == Rejected("send failed")))
  {
    WindowExactly(Issued(0, w.freshId, attempt, w.now, s.flows[f].deadline, w.sendWorks));
    hide Window; hide RetryDelay;
  }

  /** Exactly when a request starts a flow, and what that flow is. */
  lemma RequestExactly(s: State, r: Request, w: World)
    ensures
      var t := Step(s, RequestCode(r, w));
      var busy := s.active.Some? && s.active.value < |s.flows| && !s.flows[s.active.value].settled;
      if !r.hasTransport || r.registered || busy || r.phone.None? then t == s
      else
        var f := |s.flows|;
        && |t.flows| == f + 1 && t.flows[..f] == s.flows
        && t.flows[f].phone == r.phone.value && t.flows[f].maxAttempts == r.maxAttempts
        && t.flows[f].deadline == w.now + r.timeoutMs
        && (r.timeoutMs >= 0 && r.maxAttempts >= 1 ==>
              t.issued == s.issued + [Issued(f, w.freshId, 1, w.now, w.now + r.timeoutMs, w.sendWorks)])
        && (r.timeoutMs >= 0 && r.maxAttempts >= 1 && w.sendWorks ==>
              t.active == Some(f) && !t.flows[f].settled && t.flows[f].overallTimer && t.flows[f].iqIds == {w.freshId})
  {
    hide Window; hide RetryDelay;
  }

  /** Cancelling settles the active flow with the reason given, frees the lock and forgets the flow's ids. */
  lemma CancelExactly(s: State, reason: string)
    ensures
      var t := Step(s, CancelAll(reason));
      if s.active.Some? && s.active.value < |s.flows| && !s.flows[s.active.value].settled then
        var f := s.active.value;
        && t.active == None && t.issued == s.issued && t.iqToFlow == s.iqToFlow - s.flows[f].iqIds
        && t.flows == s.flows[f := s.flows[f].(
             settled := true, result := Rejected(reason), overallTimer := false, attemptTimer := None, iqIds := {}, activeIq := None)]
      else t == s
  {
  }
}
