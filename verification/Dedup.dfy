/** The message deduplication window: a time-to-live and a bounded, insertion-ordered table. */
module Dedup {
  import opened Prelude

  datatype Entry = Entry(key: string, time: int)

  function Key(remoteJid: string, id: string, fromMe: bool): string {
    (if fromMe then "1:" else "0:") + remoteJid + ":" + id
  }

  predicate Has(seen: seq<Entry>, key: string) {
    exists k :: 0 <= k < |seen| && seen[k].key == key
  }

  /** The entries that have not outlived their time. */
  function Gc(seen: seq<Entry>, now: int, ttl: int): seq<Entry> {
    if seen == [] then [] else
    (if now - seen[0].time > ttl then [] else [seen[0]]) + Gc(seen[1..], now, ttl)
  }

  /** One call: the table after it, and whether the key counts as new. The clock is read twice. */
  function CheckAndAdd(seen: seq<Entry>, key: string, gcNow: int, now: int, ttl: int, maxSize: nat): (seq<Entry>, bool) {
    var kept := Gc(seen, gcNow, ttl);
    if Has(kept, key) then (kept, false) else
    var added := kept + [Entry(key, now)];
    (if |added| > maxSize then added[1..] else added, true)
  }

  class MessageDeduper {
    const ttl: int
    const maxSize: nat
    var seen: seq<Entry>

    constructor (ttl: int, maxSize: nat)
      ensures this.ttl == ttl && this.maxSize == maxSize && seen == []
    {
      this.ttl, this.maxSize, seen := ttl, maxSize, [];
    }

    method DropExpired(now: int)
      modifies this
      ensures seen == Gc(old(seen), now, ttl)
    {
      var kept: seq<Entry> := [];
      for k := 0 to |seen|
        invariant seen == old(seen)
        invariant kept + Gc(seen[k..], now, ttl) == Gc(seen, now, ttl)
      {
        assert seen[k..][1..] == seen[k + 1..];
        if !(now - seen[k].time > ttl) {
          kept := kept + [seen[k]];
        }
      }
      seen := kept;
    }

    method Lookup(key: string) returns (found: bool)
      ensures found == Has(seen, key)
    {
      for k := 0 to |seen|
        invariant forall j :: 0 <= j < k ==> seen[j].key != key
      {
        if seen[k].key == key {
          return true;
        }
      }
      return false;
    }

    method Check(remoteJid: string, id: string, fromMe: bool, gcNow: int, now: int) returns (isNew: bool)
      modifies this
      ensures (seen, isNew) == CheckAndAdd(old(seen), Key(remoteJid, id, fromMe), gcNow, now, ttl, maxSize)
    {
      DropExpired(gcNow);
      var key := Key(remoteJid, id, fromMe);
      var known := Lookup(key);
      if known {
        return false;
      }
      seen := seen + [Entry(key, now)];
      if |seen| > maxSize {
        seen := seen[1..];
      }
      return true;
    }
  }

  // ----- runs -----

  datatype Call = Call(key: string, gcNow: int, now: int)

  /** The table, everything ever accepted in order, and the last clock reading. */
  datatype State = State(seen: seq<Entry>, accepted: seq<Entry>, clock: int)

  function Step(s: State, call: Call, ttl: int, maxSize: nat): State {
    var (seen, isNew) := CheckAndAdd(s.seen, call.key, call.gcNow, call.now, ttl, maxSize);
    State(seen, if isNew then s.accepted + [Entry(call.key, call.now)] else s.accepted, call.now)
  }

  predicate ClockMovesOn(s: State, call: Call) {
    s.clock <= call.gcNow <= call.now
  }

  function Run(s: State, calls: seq<Call>, ttl: int, maxSize: nat): State
    decreases |calls|
  {
    if calls == [] then s else Run(Step(s, calls[0], ttl, maxSize), calls[1..], ttl, maxSize)
  }

  predicate TimedRun(s: State, calls: seq<Call>, ttl: int, maxSize: nat)
    decreases |calls|
  {
    calls == [] || (ClockMovesOn(s, calls[0]) && TimedRun(Step(s, calls[0], ttl, maxSize), calls[1..], ttl, maxSize))
  }

  ghost predicate Sorted(log: seq<Entry>, clock: int) {
    && (forall j, k :: 0 <= j <= k < |log| ==> log[j].time <= log[k].time)
    && (forall k :: 0 <= k < |log| ==> log[k].time <= clock)
  }

  /** Where in the log of acceptances the table begins. */
  function First(s: State): int {
    |s.accepted| - |s.seen|
  }

  /** The table is the newest part of the log; what left it is too old or pushed out by maxSize others. */
  ghost predicate Inv(s: State, ttl: int, maxSize: nat) {
    && |s.seen| <= |s.accepted| && s.seen == s.accepted[First(s)..]
    && |s.seen| <= maxSize
    && Sorted(s.accepted, s.clock)
    && DroppedRightly(s.accepted, First(s), s.clock, ttl, maxSize)
    && Windowed(s.accepted, ttl, maxSize)
  }

  /** Two acceptances of one key are more than ttl apart or have maxSize others between them. */
  ghost predicate Windowed(log: seq<Entry>, ttl: int, maxSize: nat) {
    forall j, k :: 0 <= j < k < |log| && log[j].key == log[k].key ==>
      log[k].time - log[j].time > ttl || k - j - 1 >= maxSize
  }

  lemma {:induction false} GcKeepsFresh(seen: seq<Entry>, now: int, ttl: int)
    requires forall k :: 0 <= k < |seen| ==> now - seen[k].time <= ttl
    ensures Gc(seen, now, ttl) == seen
  {
    if seen != [] {
      GcKeepsFresh(seen[1..], now, ttl);
    }
  }

  /** Cleaning a time-sorted table cuts a prefix of m entries, the expired ones. */
  lemma {:induction false} GcCutsPrefix(seen: seq<Entry>, now: int, ttl: int) returns (m: nat)
    requires Sorted(seen, now)
    ensures m <= |seen| && Gc(seen, now, ttl) == seen[m..]
    ensures forall k :: 0 <= k < |seen| ==> (now - seen[k].time > ttl <==> k < m)
  {
    if seen == [] || now - seen[0].time <= ttl {
      GcKeepsFresh(seen, now, ttl);
      return 0;
    }
    var tail := seen[1..];
    var n := GcCutsPrefix(tail, now, ttl);
    assert Gc(seen, now, ttl) == Gc(tail, now, ttl);
    hide Gc; hide Sorted;
    assert tail[n..] == seen[n + 1..];
    forall k | 0 <= k < |seen| ensures now - seen[k].time > ttl <==> k < n + 1 {
      if k > 0 {
        assert tail[k - 1] == seen[k];
      }
    }
    return n + 1;
  }

  /** After cleaning, the table holds exactly the last maxSize acceptances that are still alive. */
  lemma CleanTable(s: State, now: int, ttl: int, maxSize: nat)
    requires Inv(s, ttl, maxSize) && s.clock <= now
    ensures var m := |Gc(s.seen, now, ttl)|;
      && m <= |s.seen| && Gc(s.seen, now, ttl) == s.accepted[|s.accepted| - m..]
      && (forall k :: 0 <= k < |s.accepted| ==>
            (k >= |s.accepted| - m <==> k >= |s.accepted| - maxSize && now - s.accepted[k].time <= ttl))
  {
    var m := GcCutsPrefix(s.seen, now, ttl);
    forall k | First(s) <= k < |s.accepted| ensures s.seen[k - First(s)] == s.accepted[k] {
    }
  }

  /** Exactly when a key is accepted: none of the last maxSize acceptances is of that key and still alive. */
  lemma AcceptedExactly(s: State, call: Call, ttl: int, maxSize: nat)
    requires Inv(s, ttl, maxSize) && ClockMovesOn(s, call)
    ensures CheckAndAdd(s.seen, call.key, call.gcNow, call.now, ttl, maxSize).1
      <==> forall k :: Max(0, |s.accepted| - maxSize) <= k < |s.accepted| && s.accepted[k].key == call.key ==>
        call.gcNow - s.accepted[k].time > ttl
  {
    CleanTable(s, call.gcNow, ttl, maxSize);
    hide Inv; hide Gc;
    var kept, n := Gc(s.seen, call.gcNow, ttl), |s.accepted|;
    var start := n - |kept|;
    forall k | 0 <= k < |kept| ensures kept[k] == s.accepted[start + k] {
    }
    forall k | start <= k < n ensures s.accepted[k] == kept[k - start] {
    }
  }

  /** Whatever is not in the table after a call is too old or has maxSize newer acceptances. */
  ghost predicate DroppedRightly(log: seq<Entry>, first: int, clock: int, ttl: int, maxSize: nat) {
    forall k :: 0 <= k < first && k < |log| ==> clock - log[k].time > ttl || |log| - 1 - k >= maxSize
  }

  lemma StepKeepsInv(s: State, call: Call, ttl: int, maxSize: nat)
    requires Inv(s, ttl, maxSize) && ClockMovesOn(s, call)
    ensures Inv(Step(s, call, ttl, maxSize), ttl, maxSize)
  {
    CleanTable(s, call.gcNow, ttl, maxSize);
    var kept, n := Gc(s.seen, call.gcNow, ttl), |s.accepted|;
    assert DroppedRightly(s.accepted, n - |kept|, call.gcNow, ttl, maxSize);
    if CheckAndAdd(s.seen, call.key, call.gcNow, call.now, ttl, maxSize).1 {
      WindowGrows(s, call, ttl, maxSize);
      AddKeepsInv(s, call, kept, ttl, maxSize);
    }
  }

  /** Adding an entry to a cleaned table, and dropping the oldest one if there are too many. */
  lemma AddKeepsInv(s: State, call: Call, kept: seq<Entry>, ttl: int, maxSize: nat)
    requires Sorted(s.accepted, s.clock) && ClockMovesOn(s, call)
    requires |kept| <= |s.accepted| && |kept| <= maxSize && kept == s.accepted[|s.accepted| - |kept|..]
    requires DroppedRightly(s.accepted, |s.accepted| - |kept|, call.gcNow, ttl, maxSize)
    requires Windowed(s.accepted + [Entry(call.key, call.now)], ttl, maxSize)
    ensures
      var added := kept + [Entry(call.key, call.now)];
      Inv(State(if |added| > maxSize then added[1..] else added, s.accepted + [Entry(call.key, call.now)], call.now), ttl, maxSize)
  {
    hide Windowed;
    var log := s.accepted + [Entry(call.key, call.now)];
    var n := |s.accepted|;
    var added := kept + [Entry(call.key, call.now)];
    assert added == log[n - |kept|..];
    assert added[1..] == log[n - |kept| + 1..];
    assert forall k :: 0 <= k < n ==> log[k] == s.accepted[k];
  }

  /** A newly accepted key keeps its distance from every earlier acceptance of it. */
  lemma WindowGrows(s: State, call: Call, ttl: int, maxSize: nat)
    requires Inv(s, ttl, maxSize) && ClockMovesOn(s, call)
    requires CheckAndAdd(s.seen, call.key, call.gcNow, call.now, ttl, maxSize).1
    ensures Windowed(s.accepted + [Entry(call.key, call.now)], ttl, maxSize)
  {
    AcceptedExactly(s, call, ttl, maxSize);
    hide CheckAndAdd;
  }

  lemma {:induction false} RunKeepsInv(s: State, calls: seq<Call>, ttl: int, maxSize: nat)
    requires Inv(s, ttl, maxSize) && TimedRun(s, calls, ttl, maxSize)
    ensures Inv(Run(s, calls, ttl, maxSize), ttl, maxSize)
    decreases |calls|
  {
    if calls != [] {
      StepKeepsInv(s, calls[0], ttl, maxSize);
      RunKeepsInv(Step(s, calls[0], ttl, maxSize), calls[1..], ttl, maxSize);
    }
  }

  /** The deduplication window over every run with a clock that never goes back. */
  lemma DedupWindow(calls: seq<Call>, start: int, ttl: int, maxSize: nat)
    requires TimedRun(State([], [], start), calls, ttl, maxSize)
    ensures
      var s := Run(State([], [], start), calls, ttl, maxSize);
      && |s.seen| <= maxSize && |s.seen| <= |s.accepted| && s.seen == s.accepted[First(s)..]
      && Sorted(s.accepted, s.clock) && Windowed(s.accepted, ttl, maxSize)
  {
    hide Step; hide TimedRun;
    RunKeepsInv(State([], [], start), calls, ttl, maxSize);
  }

  /** Where one string is a front of another, the tails tell them apart. */
  lemma SplitSame(j1: string, i1: string, j2: string, i2: string)
    requires |j1| < |j2| && j1 + ":" + i1 == j2 + ":" + i2
    ensures var x := j2[|j1| + 1..];
      j2 == j1 + ":" + x && i1 == x + ":" + i2
  {
    var s1, s2, x := j1 + ":" + i1, j2 + ":" + i2, j2[|j1| + 1..];
    assert j2 == s2[..|j2|] && j1 == s1[..|j1|];
    assert j2[..|j1|] == s2[..|j1|] && j2[|j1|] == s1[|j1|] == ':';
    assert j2 == j2[..|j1|] + [j2[|j1|]] + x;
    assert i1 == s1[|j1| + 1..] && s2[|j1| + 1..] == x + ":" + i2;
  }

  /**
   Exactly which messages share a key: equal ones, and those where the address of one goes on,
   behind a colon, with what the id of the other begins with.
   */
  lemma KeysCollideExactly(j1: string, i1: string, f1: bool, j2: string, i2: string, f2: bool)
    requires |j1| <= |j2|
    ensures Key(j1, i1, f1) == Key(j2, i2, f2)
      <==> f1 == f2 && ((j1 == j2 && i1 == i2) || exists x :: j2 == j1 + ":" + x && i1 == x + ":" + i2)
  {
    SameFlag(j1 + ":" + i1, f1, j2 + ":" + i2, f2);
    assert Key(j1, i1, f1) == (if f1 then "1:" else "0:") + (j1 + ":" + i1);
    assert Key(j2, i2, f2) == (if f2 then "1:" else "0:") + (j2 + ":" + i2);
    hide Key;
    BodiesCollideExactly(j1, i1, j2, i2);
  }

  lemma SameFlag(s1: string, f1: bool, s2: string, f2: bool)
    ensures (if f1 then "1:" else "0:") + s1 == (if f2 then "1:" else "0:") + s2 <==> f1 == f2 && s1 == s2
  {
    var k1, k2 := (if f1 then "1:" else "0:") + s1, (if f2 then "1:" else "0:") + s2;
    assert k1[0] == (if f1 then '1' else '0') && k2[0] == (if f2 then '1' else '0');
    assert k1[2..] == s1 && k2[2..] == s2;
  }

  lemma BodiesCollideExactly(j1: string, i1: string, j2: string, i2: string)
    requires |j1| <= |j2|
    ensures j1 + ":" + i1 == j2 + ":" + i2
      <==> (j1 == j2 && i1 == i2) || exists x :: j2 == j1 + ":" + x && i1 == x + ":" + i2
  {
    var s1, s2 := j1 + ":" + i1, j2 + ":" + i2;
    if s1 == s2 {
      if |j1| < |j2| {
        SplitSame(j1, i1, j2, i2);
      } else {
        assert j1 == s1[..|j1|] && j2 == s2[..|j2|];
        assert i1 == s1[|j1| + 1..] && i2 == s2[|j2| + 1..];
      }
    }
    if x :| j2 == j1 + ":" + x && i1 == x + ":" + i2 {
      assert s1 == s2;
    }
  }

  /** Where either all ids or all addresses are free of colons, different messages have different keys. */
  lemma KeysDistinct(j1: string, i1: string, f1: bool, j2: string, i2: string, f2: bool)
    requires (':' !in i1 && ':' !in i2) || (':' !in j1 && ':' !in j2)
    ensures Key(j1, i1, f1) == Key(j2, i2, f2) <==> (j1, i1, f1) == (j2, i2, f2)
  {
    if |j1| <= |j2| {
      KeysCollideExactly(j1, i1, f1, j2, i2, f2);
      ColonInside(j1, i1, j2, i2);
    } else {
      KeysCollideExactly(j2, i2, f2, j1, i1, f1);
      ColonInside(j2, i2, j1, i1);
    }
  }

  lemma ColonInside(j1: string, i1: string, j2: string, i2: string)
    ensures forall x :: j2 == j1 + ":" + x && i1 == x + ":" + i2 ==> ':' in j2 && ':' in i1
  {
    forall x | j2 == j1 + ":" + x && i1 == x + ":" + i2 ensures ':' in j2 && ':' in i1 {
      assert j2[|j1|] == ':' && i1[|x|] == ':';
    }
  }

  /** A message that is not accepted as new although no equal one came before: its key was taken by another. */
  lemma ForeignKeySuppresses(j: string, x: string, i: string, fromMe: bool, now: int, ttl: nat, maxSize: nat)
    requires maxSize > 0
    ensures
      var first := CheckAndAdd([], Key(j, x + ":" + i, fromMe), now, now, ttl, maxSize);
      var second := CheckAndAdd(first.0, Key(j + ":" + x, i, fromMe), now, now, ttl, maxSize);
      first.1 && !second.1 && (j, x + ":" + i) != (j + ":" + x, i)
  {
    KeysCollideExactly(j, x + ":" + i, fromMe, j + ":" + x, i, fromMe);
    var first := CheckAndAdd([], Key(j, x + ":" + i, fromMe), now, now, ttl, maxSize);
    assert first.0 == [Entry(Key(j, x + ":" + i, fromMe), now)];
    assert first.0[1..] == [];
    assert Gc(first.0, now, ttl) == first.0;
    assert first.0[0].key == Key(j + ":" + x, i, fromMe);
    assert |j + ":" + x| != |j|;
  }
}
