/**
 The reconnect manager: connection generations, bounded retries with capped exponential backoff,
 and cancellation of pending waits. Random jitter is an input.
 */
module Reconnect {
  import opened Prelude

  datatype Options = Options(maxRetries: int, baseDelayMs: nat, maxDelayMs: nat, jitter: bool)

  datatype Disconnect = Disconnect(isLoggedOut: bool, statusCode: Option<int>)

  const LOGGED_OUT := 401
  const FORBIDDEN := 403
  const TIMED_OUT := 408

  datatype CloseInfo = CloseInfo(
    intentional: bool, stopped: bool, disconnect: Option<Disconnect>, code: Option<int>)

  datatype Decision = Decision(should: bool, delayMs: nat)

  /** Pending waits by token; grants and waits count what happened since the last open. */
  datatype State = State(
    generation: nat, attempt: nat, isReconnecting: bool, cancelled: bool, token: nat,
    pending: map<nat, nat>, grants: nat, waits: nat)

  datatype Event =
    | BeginConnect
    | MarkOpen(generation: nat)
    | OnClose(generation: nat, info: CloseInfo, jitter: nat)
    | WaitBackoff(jitter: nat)
    | WaitElapses(token: nat)
    | Cancel

  const START := State(0, 0, false, false, 0, map[], 0, 0)

  // ----- delays and decisions -----

  function Doubled(base: nat, attempt: nat): nat {
    if attempt == 0 then base else 2 * Doubled(base, attempt - 1)
  }

  function Cap(attempt: nat, o: Options): nat {
    Min(o.maxDelayMs, Doubled(o.baseDelayMs, attempt))
  }

  /** With full jitter any delay below the cap, without it the cap itself. */
  function Delay(attempt: nat, o: Options, jitter: nat): nat {
    var cap := Cap(attempt, o);
    if !o.jitter then cap else if cap == 0 then 0 else jitter % cap
  }

  function MapWsCode(code: Option<int>): Option<Disconnect> {
    if code == Some(1006) then Some(Disconnect(false, Some(TIMED_OUT)))
    else if code == Some(1001) then Some(Disconnect(false, None))
    else None
  }

  function Reason(info: CloseInfo): Option<Disconnect> {
    if info.disconnect.Some? then info.disconnect else MapWsCode(info.code)
  }

  /** Logout and the two fatal status codes. */
  predicate Fatal(info: CloseInfo) {
    var d := Reason(info);
    d.Some? && (d.value.isLoggedOut || d.value.statusCode == Some(LOGGED_OUT) || d.value.statusCode == Some(FORBIDDEN))
  }

  /** Is a close of this generation answered with a reconnect? */
  predicate Grants(s: State, generation: nat, info: CloseInfo, o: Options) {
    && generation == s.generation
    && !(info.stopped || info.intentional || s.cancelled)
    && !Fatal(info)
    && s.attempt < o.maxRetries
  }

  /** What a wait that ends now returns: its delay, or -1 when it was overtaken or cancelled. */
  function WaitResult(s: State, token: nat): int
    requires token in s.pending
  {
    if s.cancelled || token != s.token then -1 else s.pending[token]
  }

  function Step(s: State, e: Event, o: Options): State {
    match e
    case BeginConnect => s.(cancelled := false, generation := s.generation + 1, isReconnecting := false)
    case MarkOpen(g) =>
      if g != s.generation then s else s.(attempt := 0, isReconnecting := false, grants := 0, waits := 0)
    case OnClose(g, info, _) =>
      if g != s.generation then s
      else if Grants(s, g, info, o) then s.(isReconnecting := true, grants := s.grants + 1)
      else s.(isReconnecting := false)
    case WaitBackoff(jitter) =>
      s.(token := s.token + 1, attempt := s.attempt + 1, waits := s.waits + 1,
         pending := s.pending[s.token + 1 := Delay(s.attempt, o, jitter)])
    case WaitElapses(token) => s.(pending := s.pending - {token})
    case Cancel => s.(cancelled := true, isReconnecting := false, token := s.token + 1)
  }

  // ----- the manager object -----

  class ReconnectManager {
    const options: Options
    var generation: nat
    var attempt: nat
    var isReconnecting: bool
    var cancelled: bool
    var token: nat
    var pending: map<nat, nat>
    ghost var grants: nat
    ghost var waits: nat

    ghost function View(): State
      reads this
    {
      State(generation, attempt, isReconnecting, cancelled, token, pending, grants, waits)
    }

    constructor (options: Options)
      ensures View() == START && this.options == options
    {
      this.options := options;
      generation, attempt, isReconnecting, cancelled, token, pending := 0, 0, false, false, 0, map[];
      grants, waits := 0, 0;
    }

    method DoBeginConnect() returns (g: nat)
      modifies this
      ensures View() == Step(old(View()), BeginConnect, options)
      ensures g == generation == old(generation) + 1
    {
      cancelled := false;
      generation := generation + 1;
      isReconnecting := false;
      return generation;
    }

    method DoMarkOpen(g: nat)
      modifies this
      ensures View() == Step(old(View()), MarkOpen(g), options)
    {
      if g != generation {
        return;
      }
      attempt := 0;
      isReconnecting := false;
      grants, waits := 0, 0;
    }

    method DoOnClose(g: nat, info: CloseInfo, jitter: nat) returns (d: Decision)
      modifies this
      ensures View() == Step(old(View()), OnClose(g, info, jitter), options)
      ensures d.should == Grants(old(View()), g, info, options)
      ensures d.delayMs == if d.should then Delay(old(attempt), options, jitter) else 0
    {
      if g != generation {
        return Decision(false, 0);
      }
      if info.stopped || info.intentional || cancelled {
        isReconnecting := false;
        return Decision(false, 0);
      }
      var disc := if info.disconnect.Some? then info.disconnect else MapWsCode(info.code);
      if disc.Some? && disc.value.isLoggedOut {
        isReconnecting := false;
        return Decision(false, 0);
      }
      if disc.Some? && (disc.value.statusCode == Some(LOGGED_OUT) || disc.value.statusCode == Some(FORBIDDEN)) {
        isReconnecting := false;
        return Decision(false, 0);
      }
      if attempt >= options.maxRetries {
        isReconnecting := false;
        return Decision(false, 0);
      }
      isReconnecting := true;
      grants := grants + 1;
      return Decision(true, Delay(attempt, options, jitter));
    }

    /** The part of a wait before it sleeps. */
    method StartWait(jitter: nat) returns (t: nat)
      modifies this
      ensures View() == Step(old(View()), WaitBackoff(jitter), options)
      ensures t == token && t in pending
    {
      token := token + 1;
      pending := pending[token := Delay(attempt, options, jitter)];
      attempt := attempt + 1;
      waits := waits + 1;
      return token;
    }

    /** The part of a wait after it slept. */
    method EndWait(t: nat) returns (r: int)
      requires t in pending
      modifies this
      ensures View() == Step(old(View()), WaitElapses(t), options)
      ensures r == WaitResult(old(View()), t)
    {
      r := if cancelled || t != token then -1 else pending[t];
      pending := pending - {t};
    }

    method DoCancel()
      modifies this
      ensures View() == Step(old(View()), Cancel, options)
    {
      cancelled := true;
      isReconnecting := false;
      token := token + 1;
    }
  }

  /** Without jitter the waits never shrink from one attempt to the next, and stop growing at the cap. */
  lemma {:induction false} DelaysGrow(attempt: nat, later: nat, o: Options, x: nat, y: nat)
    requires attempt <= later && !o.jitter
    ensures Delay(attempt, o, x) <= Delay(later, o, y)
    ensures Delay(attempt, o, x) == o.maxDelayMs ==> Delay(later, o, y) == o.maxDelayMs
    decreases later
  {
    if attempt < later {
      DelaysGrow(attempt, later - 1, o, x, y);
    }
  }

  function TwoTo(n: nat): nat {
    if n == 0 then 1 else 2 * TwoTo(n - 1)
  }

  lemma {:induction false} DoubledIsPower(base: nat, attempt: nat)
    ensures Doubled(base, attempt) == base * TwoTo(attempt)
    decreases attempt
  {
    if attempt > 0 {
      DoubledIsPower(base, attempt - 1);
      assert base * (2 * TwoTo(attempt - 1)) == 2 * (base * TwoTo(attempt - 1));
    }
  }

  /**
   What a wait waits: the base delay times two to the attempts so far, at most the cap; with jitter
   anything below that, and everything below it can occur.
   */
  lemma WaitExactly(s: State, jitter: nat, o: Options)
    ensures
      var t := Step(s, WaitBackoff(jitter), o);
      var full := Min(o.maxDelayMs, o.baseDelayMs * TwoTo(s.attempt));
      && t.token == s.token + 1 && t.attempt == s.attempt + 1 && t.token in t.pending
      && (!o.jitter ==> t.pending[t.token] == full)
      && (o.jitter && full == 0 ==> t.pending[t.token] == 0)
      && (o.jitter && full > 0 ==> t.pending[t.token] < full)
      && (o.jitter && jitter < full ==> t.pending[t.token] == jitter)
  {
    DoubledIsPower(o.baseDelayMs, s.attempt);
    hide Doubled;
    var full := Min(o.maxDelayMs, o.baseDelayMs * TwoTo(s.attempt));
    assert Cap(s.attempt, o) == full;
    if jitter < full {
      assert jitter % full == jitter;
    }
  }

  /** A close that ends the login: logged out, or status 401 or 403. */
  predicate EndsLogin(info: CloseInfo) {
    info.disconnect.Some?
    && (info.disconnect.value.isLoggedOut || info.disconnect.value.statusCode == Some(401)
        || info.disconnect.value.statusCode == Some(403))
  }

  /**
   Exactly which closes are answered with a reconnect: those of the current generation, not wanted by
   the caller, after no cancel, that do not end the login, while attempts are left.
   */
  lemma CloseExactly(s: State, g: nat, info: CloseInfo, jitter: nat, o: Options)
    ensures Grants(s, g, info, o)
      <==> g == s.generation && !info.stopped && !info.intentional && !s.cancelled && !EndsLogin(info) && s.attempt < o.maxRetries
    ensures
      var t := Step(s, OnClose(g, info, jitter), o);
      if g != s.generation then t == s
      else t == s.(isReconnecting := Grants(s, g, info, o), grants := s.grants + (if Grants(s, g, info, o) then 1 else 0))
  {
  }

  // ----- runs -----

  function Run(s: State, events: seq<Event>, o: Options): State
    decreases |events|
  {
    if events == [] then s else Run(Step(s, events[0], o), events[1..], o)
  }

  /** The caller's discipline: a close is only reported once every earlier grant has been waited for. */
  predicate Disciplined(s: State, e: Event) {
    e.OnClose? ==> s.grants <= s.waits
  }

  predicate DisciplinedRun(s: State, events: seq<Event>, o: Options)
    decreases |events|
  {
    events == [] || (Disciplined(s, events[0]) && DisciplinedRun(Step(s, events[0], o), events[1..], o))
  }

  ghost predicate Inv(s: State, o: Options) {
    && s.attempt == s.waits
    && s.grants <= Max(0, o.maxRetries)
    && (forall t :: t in s.pending ==> t <= s.token && s.pending[t] <= o.maxDelayMs)
  }

  lemma {:induction false} RunKeepsInv(s: State, events: seq<Event>, o: Options)
    requires Inv(s, o) && DisciplinedRun(s, events, o)
    ensures Inv(Run(s, events, o), o)
    decreases |events|
  {
    if events != [] {
      DelayIsCapped(s.attempt, o, if events[0].WaitBackoff? then events[0].jitter else 0);
      RunKeepsInv(Step(s, events[0], o), events[1..], o);
    }
  }

  lemma DelayIsCapped(attempt: nat, o: Options, jitter: nat)
    ensures Delay(attempt, o, jitter) <= Cap(attempt, o) <= o.maxDelayMs
  {
  }

  /** Bounded retries: between two opens at most maxRetries reconnects are granted, and no wait exceeds the cap. */
  lemma BoundedRetries(events: seq<Event>, o: Options)
    requires DisciplinedRun(START, events, o)
    ensures
      var s := Run(START, events, o);
      s.grants <= Max(0, o.maxRetries) && forall t :: t in s.pending ==> s.pending[t] <= o.maxDelayMs
  {
    RunKeepsInv(START, events, o);
  }

  // ----- what the caller's discipline is needed for -----

  /** n closes of the current generation, with no wait between them. */
  function Closes(s: State, info: CloseInfo, n: nat): (events: seq<Event>)
    ensures |events| == n
  {
    seq(n, i => OnClose(s.generation, info, 0))
  }

  /** A close without a wait does not use up an attempt, so every one of n such closes is granted. */
  lemma {:induction false} UnwaitedClosesAllGranted(s: State, info: CloseInfo, n: nat, o: Options)
    requires Grants(s, s.generation, info, o)
    ensures Run(s, Closes(s, info, n), o).grants == s.grants + n
    decreases n
  {
    if n > 0 {
      var s1 := Step(s, OnClose(s.generation, info, 0), o);
      assert Closes(s, info, n)[1..] == Closes(s1, info, n - 1);
      UnwaitedClosesAllGranted(s1, info, n - 1, o);
    }
  }

  ghost predicate Reachable(s: State, o: Options) {
    exists events :: Run(START, events, o) == s
  }

  /** Every wait uses up one attempt, in all runs, and no grant happens without retries. */
  ghost predicate AttemptInv(s: State, o: Options) {
    s.attempt == s.waits && (o.maxRetries <= 0 ==> s.grants == 0)
  }

  lemma {:induction false} AttemptsAreWaits(s: State, events: seq<Event>, o: Options)
    requires AttemptInv(s, o)
    ensures AttemptInv(Run(s, events, o), o)
    decreases |events|
  {
    if events != [] {
      AttemptsAreWaits(Step(s, events[0], o), events[1..], o);
    }
  }

  /** More reconnects than allowed can be granted from here on, with no further open. */
  ghost predicate CanExceed(s: State, o: Options) {
    exists events :: MarksNoOpen(events) && Run(s, events, o).grants > Max(0, o.maxRetries)
  }

  predicate MarksNoOpen(events: seq<Event>) {
    forall e :: e in events ==> !e.MarkOpen?
  }

  const PLAIN_CLOSE := CloseInfo(false, false, None, None)

  lemma AttemptsLeftCanExceed(s: State, o: Options)
    requires s.attempt < o.maxRetries
    ensures CanExceed(s, o)
  {
    var s1 := Step(s, BeginConnect, o);
    var n := o.maxRetries + 1;
    var events := [BeginConnect] + Closes(s1, PLAIN_CLOSE, n);
    assert Grants(s1, s1.generation, PLAIN_CLOSE, o);
    UnwaitedClosesAllGranted(s1, PLAIN_CLOSE, n, o);
    assert events[1..] == Closes(s1, PLAIN_CLOSE, n);
    assert Run(s, events, o).grants == s1.grants + n;
    assert MarksNoOpen(events);
  }

  /** One grant that was not waited for is enough: some continuation then grants too many. */
  lemma UnwaitedGrantExceeds(s: State, o: Options)
    requires Reachable(s, o) && s.grants > s.waits
    ensures CanExceed(s, o)
  {
    var events :| Run(START, events, o) == s;
    AttemptsAreWaits(START, events, o);
    if s.attempt < o.maxRetries {
      AttemptsLeftCanExceed(s, o);
    } else {
      assert MarksNoOpen([]) && Run(s, [], o) == s;
    }
  }

  /** Left to themselves, runs keep the bound exactly when no retries are allowed at all. */
  lemma UnwaitedGrantsExceedExactly(o: Options)
    ensures (forall events :: Run(START, events, o).grants <= Max(0, o.maxRetries)) <==> o.maxRetries <= 0
  {
    if o.maxRetries <= 0 {
      forall events ensures Run(START, events, o).grants <= Max(0, o.maxRetries) {
        AttemptsAreWaits(START, events, o);
      }
    } else {
      AttemptsLeftCanExceed(START, o);
      var events :| MarksNoOpen(events) && Run(START, events, o).grants > Max(0, o.maxRetries);
      assert !(Run(START, events, o).grants <= Max(0, o.maxRetries));
    }
  }

  /** Events of an older generation change nothing. */
  lemma StaleEventsIgnored(s: State, g: nat, info: CloseInfo, jitter: nat, o: Options)
    requires g != s.generation
    ensures Step(s, MarkOpen(g), o) == s && Step(s, OnClose(g, info, jitter), o) == s && !Grants(s, g, info, o)
  {
  }

  /** An open or close that does not belong to the current generation. */
  predicate Stale(s: State, e: Event) {
    match e
    case MarkOpen(g) => g != s.generation
    case OnClose(g, _, _) => g != s.generation
    case _ => false
  }

  /** A run without its stale events. */
  function Current(s: State, events: seq<Event>, o: Options): seq<Event>
    decreases |events|
  {
    if events == [] then []
    else (if Stale(s, events[0]) then [] else [events[0]]) + Current(Step(s, events[0], o), events[1..], o)
  }

  /** Stale opens and closes may be struck from any run: what is left contains none and ends in the same state. */
  lemma {:induction false} StaleEventsErased(s: State, events: seq<Event>, o: Options)
    ensures Run(s, Current(s, events, o), o) == Run(s, events, o)
    ensures Current(s, Current(s, events, o), o) == Current(s, events, o)
    decreases |events|
  {
    if events != [] {
      var e, rest := events[0], Current(Step(s, events[0], o), events[1..], o);
      StaleEventsErased(Step(s, e, o), events[1..], o);
      if Stale(s, e) {
        assert [] + rest == rest && Step(s, e, o) == s;
      } else {
        assert ([e] + rest)[1..] == rest;
      }
    }
  }

  ghost predicate FlagInv(s: State) {
    s.isReconnecting ==> !s.cancelled && s.grants > 0
  }

  /** While the manager says it is reconnecting, it was not cancelled and a reconnect was granted since the last open. */
  lemma {:induction false} ReconnectingMeansGranted(s: State, events: seq<Event>, o: Options)
    requires FlagInv(s)
    ensures FlagInv(Run(s, events, o))
    decreases |events|
  {
    if events != [] {
      ReconnectingMeansGranted(Step(s, events[0], o), events[1..], o);
    }
  }

  /** Generations and wait tokens never go back, and connecting always makes a new generation. */
  lemma {:induction false} CountersGrow(s: State, events: seq<Event>, o: Options)
    ensures Run(s, events, o).generation >= s.generation + (if BeginConnect in events then 1 else 0)
    ensures Run(s, events, o).token >= s.token
    decreases |events|
  {
    if events != [] {
      CountersGrow(Step(s, events[0], o), events[1..], o);
    }
  }

  /** A wait pending when the manager is cancelled returns -1 whenever it ends, whatever happens in between. */
  lemma CancelledWaitsFail(s: State, t: nat, events: seq<Event>, o: Options)
    requires t in s.pending && t <= s.token
    requires t in Run(Step(s, Cancel, o), events, o).pending
    ensures WaitResult(Run(Step(s, Cancel, o), events, o), t) == -1
  {
    CountersGrow(Step(s, Cancel, o), events, o);
  }

  // ----- exactly which waits return their delay -----

  predicate Overtakes(e: Event) {
    e.WaitBackoff? || e.Cancel?
  }

  lemma {:induction false} TokenStaysExactly(s: State, events: seq<Event>, o: Options)
    ensures Run(s, events, o).token == s.token <==> forall e :: e in events ==> !Overtakes(e)
    decreases |events|
  {
    if events != [] {
      var s1 := Step(s, events[0], o);
      TokenStaysExactly(s1, events[1..], o);
      CountersGrow(s1, events[1..], o);
      assert Run(s, events, o) == Run(s1, events[1..], o);
      hide Run;
      if Overtakes(events[0]) {
        assert events[0] in events;
      } else {
        assert forall e :: e in events <==> e == events[0] || e in events[1..];
      }
    }
  }

  lemma {:induction false} CancelledExactly(s: State, events: seq<Event>, o: Options)
    requires Cancel !in events
    ensures Run(s, events, o).cancelled <==> s.cancelled && BeginConnect !in events
    decreases |events|
  {
    if events != [] {
      assert forall e :: e in events <==> e == events[0] || e in events[1..];
      CancelledExactly(Step(s, events[0], o), events[1..], o);
    }
  }

  lemma {:induction false} PendingKept(s: State, t: nat, events: seq<Event>, o: Options)
    requires t in s.pending && t <= s.token && t in Run(s, events, o).pending
    ensures Run(s, events, o).pending[t] == s.pending[t]
    decreases |events|
  {
    if events != [] {
      var s1 := Step(s, events[0], o);
      if t !in s1.pending {
        NotPendingAgain(s1, t, events[1..], o);
      }
      PendingKept(s1, t, events[1..], o);
    }
  }

  lemma {:induction false} NotPendingAgain(s: State, t: nat, events: seq<Event>, o: Options)
    requires t !in s.pending && t <= s.token
    ensures t !in Run(s, events, o).pending
    decreases |events|
  {
    if events != [] {
      NotPendingAgain(Step(s, events[0], o), t, events[1..], o);
    }
  }

  /**
   A wait returns its delay exactly if no other wait and no cancel came between its start and its end,
   and the manager was not cancelled already, or has begun to connect since.
   */
  lemma WaitReturnsExactly(s: State, jitter: nat, events: seq<Event>, o: Options)
    requires s.token + 1 in Run(Step(s, WaitBackoff(jitter), o), events, o).pending
    ensures
      var started := Step(s, WaitBackoff(jitter), o);
      var result := WaitResult(Run(started, events, o), s.token + 1);
      if (forall e :: e in events ==> !Overtakes(e)) && (!s.cancelled || BeginConnect in events)
        then result == started.pending[s.token + 1]
        else result == -1
  {
    var started := Step(s, WaitBackoff(jitter), o);
    TokenStaysExactly(started, events, o);
    PendingKept(started, s.token + 1, events, o);
    if forall e :: e in events ==> !Overtakes(e) {
      CancelledExactly(started, events, o);
    }
  }

  /** What each event makes of the reconnecting flag. */
  lemma FlagExactly(s: State, e: Event, o: Options)
    ensures Step(s, e, o).isReconnecting <==>
      match e
      case BeginConnect => false
      case Cancel => false
      case MarkOpen(g) => g != s.generation && s.isReconnecting
      case OnClose(g, info, _) => if g != s.generation then s.isReconnecting else Grants(s, g, info, o)
      case _ => s.isReconnecting
  {
  }
}
