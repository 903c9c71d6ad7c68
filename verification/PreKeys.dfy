/** The pool of one-time pre-keys: batches of new ids, top-ups and removal on use. */
module PreKeys {
  import opened Prelude
  import Crypto

  const BATCH := 30

  type Store = map<nat, Crypto.KeyPair>

  datatype Pool = Pool(next: nat, store: Store)

  /** New key pairs are parameters: `source` gives the pair made for an id. */
  function Generate(p: Pool, source: nat -> Crypto.KeyPair, count: nat): Pool
    decreases count
  {
    if count == 0 then p else
    Generate(Pool(p.next + 1, p.store[p.next := source(p.next)]), source, count - 1)
  }

  /** The newest minCount ids, as far as they are at least 1. */
  predicate Newest(next: nat, minCount: nat, id: nat) {
    1 <= id < next && next - minCount <= id
  }

  /** Is every one of the newest minCount ids there, and are there that many? */
  predicate Full(p: Pool, minCount: nat) {
    (p.next - 1 >= minCount || minCount == 0) && forall id :: p.next - minCount <= id < p.next ==> id in p.store
  }

  function Ensure(p: Pool, source: nat -> Crypto.KeyPair, minCount: nat): Pool {
    if Full(p, minCount) then p else Generate(p, source, BATCH)
  }

  function Take(p: Pool, id: nat): (Pool, Option<Crypto.KeyPair>) {
    if id in p.store then (p.(store := p.store - {id}), Some(p.store[id])) else (p, None)
  }

  class PreKeyStore {
    var next: nat
    var store: Store

    ghost function View(): Pool
      reads this
    {
      Pool(next, store)
    }

    constructor (next: nat)
      ensures View() == Pool(next, map[])
    {
      this.next, store := next, map[];
    }

    /** Collects a batch of new pairs, then stores it in one go. */
    method GenerateAndStorePreKeys(source: nat -> Crypto.KeyPair, count: nat) returns (generated: seq<nat>)
      modifies this
      ensures View() == Generate(old(View()), source, count)
      ensures |generated| == count && forall i :: 0 <= i < count ==> generated[i] == old(next) + i
    {
      var dataset: Store := map[];
      var nextId: nat := next;
      generated := [];
      assert store + dataset == store;
      for i := 0 to count
        invariant next == old(next) && store == old(store)
        invariant nextId == next + i && |generated| == i
        invariant forall j :: 0 <= j < i ==> generated[j] == next + j
        invariant Generate(Pool(nextId, store + dataset), source, count - i) == Generate(old(View()), source, count)
      {
        assert (store + dataset)[nextId := source(nextId)] == store + dataset[nextId := source(nextId)];
        dataset := dataset[nextId := source(nextId)];
        generated := generated + [nextId];
        nextId := nextId + 1;
      }
      store := store + dataset;
      next := nextId;
    }

    method EnsurePreKeyPool(source: nat -> Crypto.KeyPair, minCount: nat)
      modifies this
      ensures View() == Ensure(old(View()), source, minCount)
    {
      var ids: nat, existing: nat := 0, 0;
      for i := 0 to minCount
        invariant ids == if next == 0 then 0 else Min(i, next - 1)
        invariant existing <= ids
        invariant existing == ids <==> forall id: nat :: Max(1, next - i) <= id < next ==> id in store
      {
        if next - 1 - i >= 1 {
          ids := ids + 1;
          if next - 1 - i in store {
            existing := existing + 1;
          }
        }
      }
      if existing >= Min(minCount, ids) && ids >= minCount {
        return;
      }
      var generated := GenerateAndStorePreKeys(source, BATCH);
    }

    method TakePreKey(id: nat) returns (r: Option<Crypto.KeyPair>)
      modifies this
      ensures (View(), r) == Take(old(View()), id)
    {
      if id !in store {
        return None;
      }
      r := Some(store[id]);
      store := store - {id};
    }
  }

  // ----- what a batch and a top-up do -----

  lemma {:induction false} GenerateExactly(p: Pool, source: nat -> Crypto.KeyPair, count: nat)
    ensures
      var q := Generate(p, source, count);
      && q.next == p.next + count
      && (forall id :: id in q.store <==> id in p.store || p.next <= id < q.next)
      && (forall id :: id in q.store ==>
            q.store[id] == if p.next <= id < q.next then source(id) else p.store[id])
    decreases count
  {
    if count > 0 {
      GenerateExactly(Pool(p.next + 1, p.store[p.next := source(p.next)]), source, count - 1);
    }
  }

  ghost predicate NewestPresent(p: Pool, minCount: nat) {
    forall id :: Newest(p.next, minCount, id) ==> id in p.store
  }

  /**
   After a top-up the newest minCount ids are all present exactly when the pool was full, or the
   old ids that the fresh batch of thirty leaves among the newest are still there.
   */
  lemma EnsureExactly(p: Pool, source: nat -> Crypto.KeyPair, minCount: nat)
    ensures NewestPresent(Ensure(p, source, minCount), minCount)
      <==> Full(p, minCount) || forall id :: 1 <= id < p.next && p.next + BATCH - minCount <= id ==> id in p.store
  {
    GenerateExactly(p, source, BATCH);
    if !Full(p, minCount) {
      var q := Ensure(p, source, minCount);
      forall id | 1 <= id < p.next && p.next + BATCH - minCount <= id
        ensures Newest(q.next, minCount, id)
      {
      }
    }
  }

  /**
   A pool is left alone exactly if nothing is asked for or the newest minCount ids exist and are all
   there; otherwise exactly thirty ids are added, with their pairs.
   */
  lemma TopUpExactly(p: Pool, source: nat -> Crypto.KeyPair, minCount: nat)
    ensures
      var q := Ensure(p, source, minCount);
      if minCount == 0 || (p.next > minCount && forall id :: p.next - minCount <= id < p.next ==> id in p.store) then q == p
      else
        && q.next == p.next + 30
        && (forall id :: id in q.store <==> id in p.store || p.next <= id < p.next + 30)
        && (forall id :: id in q.store ==> q.store[id] == if p.next <= id < p.next + 30 then source(id) else p.store[id])
  {
    GenerateExactly(p, source, 30);
    hide Generate;
  }

  /** For every request up to thirty, the newest ids are all there afterwards. */
  lemma EnsureFillsSmallPools(p: Pool, source: nat -> Crypto.KeyPair, minCount: nat)
    requires minCount <= 30
    ensures
      var q := Ensure(p, source, minCount);
      forall id :: 1 <= id < q.next && q.next - minCount <= id ==> id in q.store
  {
    EnsureExactly(p, source, minCount);
    var q := Ensure(p, source, minCount);
    forall id | 1 <= id < q.next && q.next - minCount <= id ensures id in q.store {
      assert Newest(q.next, minCount, id);
    }
  }

  // ----- runs -----

  datatype Event = EnsurePool(source: nat -> Crypto.KeyPair, minCount: nat) | TakeKey(id: nat)

  /** The pool with the ids ever put into it and taken out, in order, and the pairs made and handed out for them. */
  datatype State = State(
    pool: Pool, issued: seq<nat>, taken: seq<nat>, made: map<nat, Crypto.KeyPair>, handed: map<nat, Crypto.KeyPair>)

  function Ids(from: nat, count: nat): seq<nat>
    decreases count
  {
    if count == 0 then [] else [from] + Ids(from + 1, count - 1)
  }

  function Step(s: State, e: Event): State {
    match e
    case EnsurePool(source, minCount) =>
      var q := Ensure(s.pool, source, minCount);
      State(
        q, s.issued + Ids(s.pool.next, if Full(s.pool, minCount) then 0 else BATCH), s.taken,
        s.made + (map id | s.pool.next <= id < q.next :: source(id)), s.handed)
    case TakeKey(id) =>
      var (q, r) := Take(s.pool, id);
      if r.Some? then State(q, s.issued, s.taken + [id], s.made, s.handed[id := r.value]) else s.(pool := q)
  }

  function Run(s: State, events: seq<Event>): State
    decreases |events|
  {
    if events == [] then s else Run(Step(s, events[0]), events[1..])
  }

  /** From the first id on, ids are issued in order without gaps, and the store holds those not taken. */
  ghost predicate Inv(s: State, first: nat) {
    && 1 <= first <= s.pool.next
    && s.issued == Ids(first, s.pool.next - first)
    && (forall id :: id in s.pool.store <==> first <= id < s.pool.next && id !in s.taken)
    && (forall j, k :: 0 <= j < k < |s.taken| ==> s.taken[j] != s.taken[k])
    && (forall k :: 0 <= k < |s.taken| ==> first <= s.taken[k] < s.pool.next)
    && (forall id :: id in s.made <==> first <= id < s.pool.next)
    && (forall id :: id in s.pool.store ==> s.pool.store[id] == s.made[id])
    && (forall id :: id in s.handed <==> id in s.taken)
    && (forall id :: id in s.handed ==> id in s.made && s.handed[id] == s.made[id])
  }

  lemma {:induction false} IdsAre(from: nat, count: nat)
    ensures |Ids(from, count)| == count && forall k :: 0 <= k < count ==> Ids(from, count)[k] == from + k
    decreases count
  {
    if count > 0 {
      IdsAre(from + 1, count - 1);
    }
  }

  lemma {:induction false} IdsAppend(from: nat, m: nat, n: nat)
    ensures Ids(from, m) + Ids(from + m, n) == Ids(from, m + n)
    decreases m
  {
    if m == 0 {
      assert Ids(from, 0) + Ids(from, n) == Ids(from, n);
    } else {
      IdsAppend(from + 1, m - 1, n);
    }
  }

  lemma NoIds(from: nat)
    ensures Ids(from, 0) == []
  {
  }

  /** The state after a batch of n new pairs. */
  function Grown(s: State, source: nat -> Crypto.KeyPair, n: nat): State {
    State(
      Generate(s.pool, source, n), s.issued + Ids(s.pool.next, n), s.taken,
      s.made + (map id | s.pool.next <= id < s.pool.next + n :: source(id)), s.handed)
  }

  lemma GrownKeepsInv(s: State, source: nat -> Crypto.KeyPair, n: nat, first: nat)
    requires Inv(s, first)
    ensures Inv(Grown(s, source, n), first)
  {
    hide Ids; hide Generate;
    GenerateExactly(s.pool, source, n);
    IdsAppend(first, s.pool.next - first, n);
  }

  lemma EnsureKeepsInv(s: State, source: nat -> Crypto.KeyPair, minCount: nat, first: nat)
    requires Inv(s, first)
    ensures Inv(Step(s, EnsurePool(source, minCount)), first)
  {
    EnsureGrows(s, source, minCount);
    hide Inv; hide Step; hide Grown; hide Full;
    GrownKeepsInv(s, source, BATCH, first);
  }

  lemma EnsureGrows(s: State, source: nat -> Crypto.KeyPair, minCount: nat)
    ensures Step(s, EnsurePool(source, minCount)) == if Full(s.pool, minCount) then s else Grown(s, source, BATCH)
  {
    hide Full; hide Ids; hide Generate;
    GenerateExactly(s.pool, source, BATCH);
    NoIds(s.pool.next);
    assert s.issued + [] == s.issued;
  }

  lemma TakeKeepsInv(s: State, id: nat, first: nat)
    requires Inv(s, first)
    ensures Inv(Step(s, TakeKey(id)), first)
  {
    hide Ids;
    var t := Step(s, TakeKey(id));
    if id in s.pool.store {
      assert forall k :: 0 <= k < |s.taken| ==> t.taken[k] == s.taken[k];
      assert t.taken[|s.taken|] == id;
    }
  }

  lemma StepKeepsInv(s: State, e: Event, first: nat)
    requires Inv(s, first)
    ensures Inv(Step(s, e), first)
  {
    hide Inv; hide Step;
    match e
    case EnsurePool(source, minCount) => EnsureKeepsInv(s, source, minCount, first);
    case TakeKey(id) => TakeKeepsInv(s, id, first);
  }

  lemma {:induction false} RunKeepsInv(s: State, events: seq<Event>, first: nat)
    requires Inv(s, first)
    ensures Inv(Run(s, events), first)
    decreases |events|
  {
    if events != [] {
      StepKeepsInv(s, events[0], first);
      RunKeepsInv(Step(s, events[0]), events[1..], first);
    }
  }

  /**
   The pool over every run from an empty store: ids in it lie between 1 and the next id, no id is
   ever issued twice or taken twice, and exactly the issued, untaken ids are there. Every pair that
   is stored or was handed out is the one made for its id.
   */
  lemma PoolSafety(first: nat, events: seq<Event>)
    requires first >= 1
    ensures
      var s := Run(State(Pool(first, map[]), [], [], map[], map[]), events);
      && (forall id :: id in s.pool.store ==> id in s.made && s.pool.store[id] == s.made[id])
      && (forall id :: id in s.taken <==> id in s.handed)
      && (forall id :: id in s.handed ==> id in s.made && s.handed[id] == s.made[id])
      && (forall id :: id in s.pool.store ==> 1 <= id < s.pool.next)
      && (forall id :: id in s.pool.store <==> id in s.issued && id !in s.taken)
      && (forall j, k :: 0 <= j < k < |s.issued| ==> s.issued[j] != s.issued[k])
      && (forall j, k :: 0 <= j < k < |s.taken| ==> s.taken[j] != s.taken[k])
  {
    RunKeepsInv(State(Pool(first, map[]), [], [], map[], map[]), events, first);
    hide Ids; hide Run; hide Step;
    var s := Run(State(Pool(first, map[]), [], [], map[], map[]), events);
    IdsAre(first, s.pool.next - first);
    forall id ensures id in s.pool.store <==> id in s.issued && id !in s.taken {
      if first <= id < s.pool.next {
        assert s.issued[id - first] == id;
      }
    }
  }
}
