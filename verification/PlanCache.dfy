/**
  The cache of logical plans that each session has: bounded by memory, evicting what was used least
  recently. The state of the session, such as its current database, changes between requests.
 */
module PlanCache {
  import opened Basics

  const CACHE_SIZE: nat := 1048576
  const MAX_CACHEABLE: nat := 16 * 1024

  datatype Entry<P> = Entry(plan: P, lastUsed: nat, size: nat)

  datatype Store<S, P> = Store(entries: map<S, Entry<P>>, used: nat)

  // ----- Memory of a set of entries -----

  ghost function Total<S, P>(m: map<S, Entry<P>>): nat
    decreases |m|
  {
    if m == map[] then 0
    else
      var k :| k in m;
      m[k].size + Total(m - {k})
  }

  /** The total does not depend on the order of summation. */
  lemma {:induction false} TotalWithout<S, P>(m: map<S, Entry<P>>, k: S)
    requires k in m
    ensures Total(m) == m[k].size + Total(m - {k})
    decreases |m|
  {
    var j :| j in m && Total(m) == m[j].size + Total(m - {j});
    if j != k {
      TotalWithout(m - {j}, k);
      TotalWithout(m - {k}, j);
      assert m - {j} - {k} == m - {k} - {j};
    }
  }

  // ----- Eviction -----

  ghost predicate Oldest<S(!new), P>(m: map<S, Entry<P>>, k: S) {
    k in m && forall j | j in m :: m[k].lastUsed <= m[j].lastUsed
  }

  function Evict<S, P>(s: Store<S, P>, k: S): Store<S, P>
    requires k in s.entries
  {
    Store(s.entries - {k}, if s.used >= s.entries[k].size then s.used - s.entries[k].size else 0)
  }

  /** The keys that a run of the eviction loop removes, in order: at each turn one used least recently, as long as needed. */
  ghost predicate Evicts<S(!new), P>(s: Store<S, P>, keys: seq<S>)
    decreases |keys|
  {
    if s.used < CACHE_SIZE || s.entries == map[] then keys == []
    else keys != [] && Oldest(s.entries, keys[0]) && Evicts(Evict(s, keys[0]), keys[1..])
  }

  /** The store after the loop; an empty store resets the count. */
  ghost function Freed<S(!new), P>(s: Store<S, P>, keys: seq<S>): Store<S, P>
    requires Evicts(s, keys)
    decreases |keys|
  {
    if keys != [] then Freed(Evict(s, keys[0]), keys[1..])
    else if s.used < CACHE_SIZE then s
    else Store(map[], 0)
  }

  lemma {:induction false} FreedSurvivors<S(!new), P>(s: Store<S, P>, keys: seq<S>)
    requires Evicts(s, keys)
    ensures Freed(s, keys).used < CACHE_SIZE
    ensures forall j | j in Freed(s, keys).entries :: j in s.entries && Freed(s, keys).entries[j] == s.entries[j]
    decreases |keys|
  {
    if keys != [] {
      FreedSurvivors(Evict(s, keys[0]), keys[1..]);
    }
  }

  /** Nothing evicted was used after anything that stays. */
  lemma {:induction false} EvictsLeastRecent<S(!new), P>(s: Store<S, P>, keys: seq<S>, gone: S, kept: S)
    requires Evicts(s, keys)
    requires gone in s.entries && gone !in Freed(s, keys).entries && kept in Freed(s, keys).entries
    ensures kept in s.entries && s.entries[gone].lastUsed <= s.entries[kept].lastUsed
    decreases |keys|
  {
    FreedSurvivors(s, keys);
    if keys != [] && keys[0] != gone {
      EvictsLeastRecent(Evict(s, keys[0]), keys[1..], gone, kept);
    }
  }

  /** The recorded memory never falls below the memory of the entries, and stays exact once it is. */
  lemma {:induction false} FreedAccounting<S(!new), P>(s: Store<S, P>, keys: seq<S>)
    requires Evicts(s, keys) && Total(s.entries) <= s.used
    ensures Total(Freed(s, keys).entries) <= Freed(s, keys).used
    ensures Total(s.entries) == s.used ==> Total(Freed(s, keys).entries) == Freed(s, keys).used
    decreases |keys|
  {
    if keys != [] {
      TotalWithout(s.entries, keys[0]);
      FreedAccounting(Evict(s, keys[0]), keys[1..]);
    }
  }

  ghost predicate Newest<S(!new), P>(m: map<S, Entry<P>>, n: S) {
    n in m && forall j | j in m && j != n :: m[j].lastUsed < m[n].lastUsed
  }

  /** With an exact count, an entry used strictly last is never evicted if it fits alone. */
  lemma {:induction false} NewestSurvives<S(!new), P>(s: Store<S, P>, keys: seq<S>, n: S)
    requires Evicts(s, keys) && Total(s.entries) == s.used && Newest(s.entries, n) && s.entries[n].size < CACHE_SIZE
    ensures n in Freed(s, keys).entries
    decreases |keys|
  {
    if keys != [] {
      TotalWithout(s.entries, keys[0]);
      assert keys[0] == n ==> s.entries - {n} == map[];
      NewestSurvives(Evict(s, keys[0]), keys[1..], n);
    }
  }

  // ----- Runs -----

  /** One request: a statement planned in a state of the session at some time, its size, and the evictions it causes. */
  datatype Request<S, X> = Request(state: X, statement: S, size: nat, now: nat, evicted: seq<S>)

  function Insert<S, P>(s: Store<S, P>, k: S, e: Entry<P>): Store<S, P> {
    Store(s.entries[k := e], s.used + e.size)
  }

  ghost predicate Legal<S(!new), P, X>(plan: (X, S) -> Result<P>, s: Store<S, P>, q: Request<S, X>) {
    var p := plan(q.state, q.statement);
    q.statement !in s.entries && p.Ok? && q.size < MAX_CACHEABLE ==>
      Evicts(Insert(s, q.statement, Entry(p.value, q.now, q.size)), q.evicted)
  }

  ghost function Serve<S(!new), P, X>(plan: (X, S) -> Result<P>, s: Store<S, P>, q: Request<S, X>): (Store<S, P>, Result<P>)
    requires Legal(plan, s, q)
  {
    if q.statement in s.entries then
      var e := s.entries[q.statement];
      (s.(entries := s.entries[q.statement := e.(lastUsed := q.now)]), Ok(e.plan))
    else
      var p := plan(q.state, q.statement);
      if p.Err? || q.size >= MAX_CACHEABLE then (s, p)
      else (Freed(Insert(s, q.statement, Entry(p.value, q.now, q.size)), q.evicted), p)
  }

  /** The recorded memory is the sum of the sizes and below the limit, and the clock is ahead of every entry. */
  ghost predicate Accurate<S(!new), P>(s: Store<S, P>, clock: nat) {
    && s.used == Total(s.entries) && s.used < CACHE_SIZE
    && forall k | k in s.entries :: s.entries[k].lastUsed <= clock && s.entries[k].size < MAX_CACHEABLE
  }

  lemma TotalIgnoresClock<S, P>(m: map<S, Entry<P>>, k: S, now: nat)
    requires k in m
    ensures Total(m[k := m[k].(lastUsed := now)]) == Total(m)
  {
    var n := m[k := m[k].(lastUsed := now)];
    TotalWithout(m, k);
    TotalWithout(n, k);
    assert n - {k} == m - {k};
  }

  lemma ServeStaysAccurate<S(!new), P, X>(plan: (X, S) -> Result<P>, s: Store<S, P>, q: Request<S, X>, clock: nat)
    requires Legal(plan, s, q) && Accurate(s, clock) && clock <= q.now
    ensures Accurate(Serve(plan, s, q).0, q.now)
    ensures Serve(plan, s, q).1.Ok? && q.size < MAX_CACHEABLE && clock < q.now ==> q.statement in Serve(plan, s, q).0.entries
  {
    var p := plan(q.state, q.statement);
    if q.statement in s.entries {
      TotalIgnoresClock(s.entries, q.statement, q.now);
    } else if p.Ok? && q.size < MAX_CACHEABLE {
      var t := Insert(s, q.statement, Entry(p.value, q.now, q.size));
      TotalWithout(t.entries, q.statement);
      assert t.entries - {q.statement} == s.entries;
      FreedSurvivors(t, q.evicted);
      FreedAccounting(t, q.evicted);
      if clock < q.now { NewestSurvives(t, q.evicted, q.statement); }
    }
  }

  /** Each request is legal in the store left by the ones before, and the clock never goes back. */
  ghost predicate LegalRun<S(!new), P, X>(plan: (X, S) -> Result<P>, qs: seq<Request<S, X>>)
    decreases |qs|, 0
  {
    qs == [] ||
    var last := |qs| - 1;
    && LegalRun(plan, qs[..last])
    && Legal(plan, Run(plan, qs[..last]), qs[last])
    && Clock(qs[..last]) <= qs[last].now
  }

  function Clock<S, X>(qs: seq<Request<S, X>>): nat {
    if qs == [] then 0 else qs[|qs| - 1].now
  }

  ghost function Run<S(!new), P, X>(plan: (X, S) -> Result<P>, qs: seq<Request<S, X>>): Store<S, P>
    requires LegalRun(plan, qs)
    decreases |qs|, 1
  {
    if qs == [] then Store(map[], 0) else Serve(plan, Run(plan, qs[..|qs| - 1]), qs[|qs| - 1]).0
  }

  /** In every run the accounting is exact and the limit is respected; if the clock has advanced, the statement just planned is cached. */
  lemma {:induction false} RunsStayAccurate<S(!new), P, X>(plan: (X, S) -> Result<P>, qs: seq<Request<S, X>>)
    requires LegalRun(plan, qs)
    ensures Accurate(Run(plan, qs), Clock(qs))
    ensures qs != [] ==>
              var last := qs[|qs| - 1];
              plan(last.state, last.statement).Ok? && last.size < MAX_CACHEABLE && Clock(qs[..|qs| - 1]) < last.now ==>
                last.statement in Run(plan, qs).entries
  {
    if qs != [] {
      var last := |qs| - 1;
      RunsStayAccurate(plan, qs[..last]);
      ServeStaysAccurate(plan, Run(plan, qs[..last]), qs[last], Clock(qs[..last]));
    }
  }

  /** The limits of the source: 16 KiB for an entry, 1 MiB for all. */
  lemma CachesExactlySmallPlans<S(!new), P, X>(plan: (X, S) -> Result<P>, s: Store<S, P>, q: Request<S, X>, clock: nat)
    requires Legal(plan, s, q) && Accurate(s, clock) && clock < q.now && q.statement !in s.entries
    ensures q.statement in Serve(plan, s, q).0.entries <==> plan(q.state, q.statement).Ok? && q.size < 16384
    ensures Serve(plan, s, q).0.used < 1048576
  {
    ServeStaysAccurate(plan, s, q, clock);
  }

  /** A hit makes its entry the most recently used one and changes nothing else. */
  lemma HitRefreshes<S(!new), P, X>(plan: (X, S) -> Result<P>, s: Store<S, P>, q: Request<S, X>, clock: nat)
    requires Legal(plan, s, q) && Accurate(s, clock) && clock < q.now && q.statement in s.entries
    ensures var t := Serve(plan, s, q).0;
            && Newest(t.entries, q.statement) && t.used == s.used && t.entries.Keys == s.entries.Keys
            && forall k | k in s.entries :: t.entries[k].plan == s.entries[k].plan && t.entries[k].size == s.entries[k].size
  {
  }

  /** No more is evicted than needed: with the last one evicted the entries would still be too large. */
  lemma {:induction false} EvictsNoMore<S(!new), P>(s: Store<S, P>, keys: seq<S>)
    requires Evicts(s, keys) && keys != [] && Total(s.entries) == s.used
    ensures keys[|keys| - 1] in s.entries && Total(Freed(s, keys).entries) + s.entries[keys[|keys| - 1]].size >= 1048576
    decreases |keys|
  {
    TotalWithout(s.entries, keys[0]);
    if |keys| > 1 {
      EvictsNoMore(Evict(s, keys[0]), keys[1..]);
    }
  }

  // ----- Where an entry comes from -----

  /** An entry is kept from the request before, or was made by the last request. */
  lemma KeptOrMade<S(!new), P, X>(plan: (X, S) -> Result<P>, qs: seq<Request<S, X>>, k: S)
    requires LegalRun(plan, qs) && k in Run(plan, qs).entries
    ensures qs != []
    ensures var last := |qs| - 1;
            var before := Run(plan, qs[..last]);
            if k in before.entries then Run(plan, qs).entries[k].plan == before.entries[k].plan
            else k == qs[last].statement && plan(qs[last].state, k) == Ok(Run(plan, qs).entries[k].plan)
  {
    var last := |qs| - 1;
    var before, q := Run(plan, qs[..last]), qs[last];
    if q.statement !in before.entries && plan(q.state, q.statement).Ok? && q.size < MAX_CACHEABLE {
      FreedSurvivors(Insert(before, q.statement, Entry(plan(q.state, q.statement).value, q.now, q.size)), q.evicted);
    }
  }

  /** The request that made a live entry: the last one that asked for it, missed and was cached. */
  ghost function Origin<S(!new), P, X>(plan: (X, S) -> Result<P>, qs: seq<Request<S, X>>, k: S): (i: nat)
    requires LegalRun(plan, qs) && k in Run(plan, qs).entries
    ensures i < |qs| && qs[i].statement == k
    decreases |qs|
  {
    KeptOrMade(plan, qs, k);
    if k in Run(plan, qs[..|qs| - 1]).entries then Origin(plan, qs[..|qs| - 1], k) else |qs| - 1
  }

  lemma {:induction false} LegalPrefix<S(!new), P, X>(plan: (X, S) -> Result<P>, qs: seq<Request<S, X>>, n: nat)
    requires LegalRun(plan, qs) && n <= |qs|
    ensures LegalRun(plan, qs[..n])
    decreases |qs|
  {
    if n == |qs| {
      assert qs[..n] == qs;
    } else {
      assert qs[..|qs| - 1][..n] == qs[..n];
      LegalPrefix(plan, qs[..|qs| - 1], n);
    }
  }

  /** The origin missed, and the entry was live ever after. */
  lemma {:induction false} OriginMissed<S(!new), P, X>(plan: (X, S) -> Result<P>, qs: seq<Request<S, X>>, k: S, n: nat)
    requires LegalRun(plan, qs) && k in Run(plan, qs).entries && Origin(plan, qs, k) <= n <= |qs|
    ensures LegalRun(plan, qs[..n])
    ensures k in Run(plan, qs[..n]).entries <==> n > Origin(plan, qs, k)
    decreases |qs|
  {
    LegalPrefix(plan, qs, n);
    var last := |qs| - 1;
    if n == |qs| {
      assert qs[..n] == qs;
    } else if k in Run(plan, qs[..last]).entries {
      assert qs[..last][..n] == qs[..n];
      OriginMissed(plan, qs[..last], k, n);
    }
  }

  /** Every cached plan is the one its origin was given. */
  lemma {:induction false} CachedPlansWerePlanned<S(!new), P, X>(plan: (X, S) -> Result<P>, qs: seq<Request<S, X>>, k: S)
    requires LegalRun(plan, qs) && k in Run(plan, qs).entries
    ensures plan(qs[Origin(plan, qs, k)].state, k) == Ok(Run(plan, qs).entries[k].plan)
    decreases |qs|
  {
    KeptOrMade(plan, qs, k);
    if k in Run(plan, qs[..|qs| - 1]).entries {
      CachedPlansWerePlanned(plan, qs[..|qs| - 1], k);
    }
  }

  /** While the state does not change, every answer is what the planner would give. */
  lemma AnswersAreFresh<S(!new), P, X>(plan: (X, S) -> Result<P>, qs: seq<Request<S, X>>, q: Request<S, X>)
    requires LegalRun(plan, qs) && Legal(plan, Run(plan, qs), q)
    requires forall i | 0 <= i < |qs| :: qs[i].state == q.state
    ensures Serve(plan, Run(plan, qs), q).1 == plan(q.state, q.statement)
  {
    if q.statement in Run(plan, qs).entries {
      CachedPlansWerePlanned(plan, qs, q.statement);
    }
  }

  // ----- The state is not part of the key -----

  ghost predicate NeverFails<S(!new), P, X(!new)>(plan: (X, S) -> Result<P>) {
    forall x: X, k: S :: plan(x, k).Ok?
  }

  /** Two stores that differ at most in the plans. */
  ghost predicate SameShape<S(!new), P, Q>(s: Store<S, P>, t: Store<S, Q>) {
    && s.used == t.used && s.entries.Keys == t.entries.Keys
    && forall k | k in s.entries :: s.entries[k].lastUsed == t.entries[k].lastUsed && s.entries[k].size == t.entries[k].size
  }

  lemma {:induction false} EvictsSameShape<S(!new), P, Q>(s: Store<S, P>, t: Store<S, Q>, keys: seq<S>)
    requires SameShape(s, t) && Evicts(s, keys)
    ensures Evicts(t, keys) && SameShape(Freed(s, keys), Freed(t, keys))
    decreases |keys|
  {
    assert s.entries == map[] <==> s.entries.Keys == {};
    assert t.entries == map[] <==> t.entries.Keys == {};
    if keys != [] {
      assert Oldest(t.entries, keys[0]);
      EvictsSameShape(Evict(s, keys[0]), Evict(t, keys[0]), keys[1..]);
    }
  }

  lemma ServesSameShape<S(!new), P, Q, X(!new)>(plan: (X, S) -> Result<P>, other: (X, S) -> Result<Q>, s: Store<S, P>, t: Store<S, Q>,
                                                q: Request<S, X>)
    requires NeverFails(plan) && NeverFails(other) && SameShape(s, t) && Legal(plan, s, q)
    ensures Legal(other, t, q) && SameShape(Serve(plan, s, q).0, Serve(other, t, q).0)
  {
    if q.statement !in s.entries && q.size < MAX_CACHEABLE {
      EvictsSameShape(Insert(s, q.statement, Entry(plan(q.state, q.statement).value, q.now, q.size)),
                      Insert(t, q.statement, Entry(other(q.state, q.statement).value, q.now, q.size)), q.evicted);
    }
  }

  /** What a run keeps, evicts and takes for an origin does not depend on the plans. */
  lemma {:induction false} RunsSameShape<S(!new), P, Q, X(!new)>(plan: (X, S) -> Result<P>, other: (X, S) -> Result<Q>, qs: seq<Request<S, X>>)
    requires NeverFails(plan) && NeverFails(other) && LegalRun(plan, qs)
    ensures LegalRun(other, qs) && SameShape(Run(plan, qs), Run(other, qs))
    decreases |qs|
  {
    if qs != [] {
      var init := qs[..|qs| - 1];
      RunsSameShape(plan, other, init);
      ServesSameShape(plan, other, Run(plan, init), Run(other, init), qs[|qs| - 1]);
    }
  }

  lemma {:induction false} OriginsSame<S(!new), P, Q, X(!new)>(plan: (X, S) -> Result<P>, other: (X, S) -> Result<Q>, qs: seq<Request<S, X>>, k: S)
    requires NeverFails(plan) && NeverFails(other) && LegalRun(plan, qs) && LegalRun(other, qs)
    requires k in Run(plan, qs).entries && k in Run(other, qs).entries
    ensures Origin(plan, qs, k) == Origin(other, qs, k)
    decreases |qs|
  {
    KeptOrMade(plan, qs, k);
    var init := qs[..|qs| - 1];
    RunsSameShape(plan, other, init);
    if k in Run(plan, init).entries {
      OriginsSame(plan, other, init, k);
    }
  }

  /** After the run, the request gets what would be planned in its own state. */
  ghost predicate AnsweredRight<S(!new), P, X>(plan: (X, S) -> Result<P>, qs: seq<Request<S, X>>, q: Request<S, X>) {
    && LegalRun(plan, qs) && Legal(plan, Run(plan, qs), q)
    && Serve(plan, Run(plan, qs), q).1 == plan(q.state, q.statement)
  }

  /** A planner that gives one state one plan and all others another. */
  ghost function Singling<S, P, X>(state: X, own: P, foreign: P): (X, S) -> Result<P> {
    (x: X, k: S) => Ok(if x == state then own else foreign)
  }

  /**
    A hit is the right answer, whatever planner that never fails is behind the cache, exactly when the
    request is made in the state in which the origin of the entry was.
   */
  lemma AnswerInAnotherState<S(!new), P(!new), X(!new)>(plan: (X, S) -> Result<P>, qs: seq<Request<S, X>>, q: Request<S, X>,
                                                              own: P, foreign: P)
    requires NeverFails(plan) && LegalRun(plan, qs) && q.statement in Run(plan, qs).entries && own != foreign
    ensures (forall other: (X, S) -> Result<P> | NeverFails(other) :: AnsweredRight(other, qs, q))
            <==> qs[Origin(plan, qs, q.statement)].state == q.state
  {
    var k := q.statement;
    if qs[Origin(plan, qs, k)].state == q.state {
      forall other: (X, S) -> Result<P> | NeverFails(other)
        ensures AnsweredRight(other, qs, q)
      {
        RunsSameShape(plan, other, qs);
        OriginsSame(plan, other, qs, k);
        CachedPlansWerePlanned(other, qs, k);
      }
    } else {
      var other := Singling<S, P, X>(q.state, own, foreign);
      assert NeverFails(other);
      RunsSameShape(plan, other, qs);
      OriginsSame(plan, other, qs, k);
      CachedPlansWerePlanned(other, qs, k);
      assert !AnsweredRight(other, qs, q);
    }
  }

  /** Plans of an unqualified statement read the current database. */
  function InDatabase(database: string, statement: string): Result<string> {
    Ok(database + "." + statement)
  }

  /** After switching from the database `a` to `b`, the same statement still runs on `a`. */
  lemma OldDatabaseIsRead()
    ensures var first, second := Request("a", "t", 100, 1, []), Request("b", "t", 100, 2, []);
            && LegalRun(InDatabase, [first]) && Legal(InDatabase, Run(InDatabase, [first]), second)
            && Serve(InDatabase, Run(InDatabase, [first]), second).1 == Ok("a.t") && InDatabase("b", "t") == Ok("b.t")
  {
    var first := Request("a", "t", 100, 1, []);
    assert [first][..0] == [];
    assert LegalRun(InDatabase, [first][..0]) && Run(InDatabase, [first][..0]) == Store(map[], 0);
    assert LegalRun(InDatabase, [first]);
    assert "a" + "." + "t" == "a.t" && "b" + "." + "t" == "b.t";
    assert Run(InDatabase, [first]) == Store(map["t" := Entry("a.t", 1, 100)], 100);
  }

  /** Inserting over a present key counts the replaced entry as well. */
  lemma ReplacingOvercounts<S, P>(s: Store<S, P>, k: S, e: Entry<P>)
    requires k in s.entries && s.used == Total(s.entries)
    ensures Insert(s, k, e).used == Total(Insert(s, k, e).entries) + s.entries[k].size
  {
    var t := Insert(s, k, e).entries;
    TotalWithout(s.entries, k);
    TotalWithout(t, k);
    assert t - {k} == s.entries - {k};
  }

  // ----- The object -----

  /** After evicting `done`, the loop has still to do what it would do from `now`. */
  ghost predicate ContinuesAs<S(!new), P>(start: Store<S, P>, done: seq<S>, now: Store<S, P>) {
    forall rest: seq<S> | Evicts(now, rest) :: Evicts(start, done + rest) && Freed(start, done + rest) == Freed(now, rest)
  }

  lemma EvictsOneMore<S(!new), P>(start: Store<S, P>, done: seq<S>, now: Store<S, P>, k: S)
    requires ContinuesAs(start, done, now) && now.used >= CACHE_SIZE && Oldest(now.entries, k)
    ensures ContinuesAs(start, done + [k], Evict(now, k))
  {
    forall rest: seq<S> | Evicts(Evict(now, k), rest)
      ensures Evicts(start, done + [k] + rest) && Freed(start, done + [k] + rest) == Freed(Evict(now, k), rest)
    {
      assert ([k] + rest)[1..] == rest && ([k] + rest)[0] == k;
      assert Evicts(now, [k] + rest);
      assert done + [k] + rest == done + ([k] + rest);
    }
  }

  lemma FinishesWith<S(!new), P>(start: Store<S, P>, done: seq<S>, now: Store<S, P>)
    requires ContinuesAs(start, done, now) && (now.used < CACHE_SIZE || now.entries == map[])
    ensures Evicts(start, done) && Freed(start, done) == if now.used < CACHE_SIZE then now else Store(map[], 0)
  {
    assert Evicts(now, []);
    assert done + [] == done;
  }

  class Cache<S(!new, ==), P> {
    var entries: map<S, Entry<P>>
    var usedMemory: nat

    constructor ()
      ensures View() == Store(map[], 0)
    {
      entries, usedMemory := map[], 0;
    }

    ghost function View(): Store<S, P>
      reads this
    {
      Store(entries, usedMemory)
    }

    method Get(statement: S, now: nat) returns (r: Option<P>)
      modifies this
      ensures r.Some? <==> statement in old(entries)
      ensures r.None? ==> View() == old(View())
      ensures r.Some? ==>
                && r.value == old(entries)[statement].plan
                && View() == Store(old(entries)[statement := old(entries)[statement].(lastUsed := now)], old(usedMemory))
    {
      if statement !in entries {
        return None;
      }
      var e := entries[statement];
      entries := entries[statement := e.(lastUsed := now)];
      return Some(e.plan);
    }

    method InsertPlan(statement: S, plan: P, size: nat, now: nat) returns (ghost evicted: seq<S>)
      modifies this
      ensures size >= MAX_CACHEABLE ==> View() == old(View())
      ensures size < MAX_CACHEABLE ==>
                var t := Insert(old(View()), statement, Entry(plan, now, size));
                Evicts(t, evicted) && View() == Freed(t, evicted)
    {
      evicted := [];
      if size < MAX_CACHEABLE {
        usedMemory := usedMemory + size;
        entries := entries[statement := Entry(plan, now, size)];
        evicted := FreeSpace();
      }
    }

    method FreeSpace() returns (ghost evicted: seq<S>)
      modifies this
      ensures Evicts(old(View()), evicted) && View() == Freed(old(View()), evicted)
    {
      evicted := [];
      assert forall rest: seq<S> :: evicted + rest == rest;
      while usedMemory >= CACHE_SIZE
        invariant ContinuesAs(old(View()), evicted, View())
        decreases |entries|
      {
        if entries == map[] {
          FinishesWith(old(View()), evicted, View());
          usedMemory := 0;
          return;
        }
        OldestExists(entries);
        var k :| k in entries && forall j | j in entries :: entries[k].lastUsed <= entries[j].lastUsed;
        EvictsOneMore(old(View()), evicted, View(), k);
        usedMemory := if usedMemory >= entries[k].size then usedMemory - entries[k].size else 0;
        entries := entries - {k};
        evicted := evicted + [k];
      }
      FinishesWith(old(View()), evicted, View());
    }

    /** A hit, or a plan made now and cached. */
    method PrepareOrGetCached<X>(planner: (X, S) -> Result<P>, state: X, statement: S, size: nat, now: nat)
      returns (r: Result<P>, ghost evicted: seq<S>)
      modifies this
      ensures var q := Request(state, statement, size, now, evicted);
              && Legal(planner, old(View()), q)
              && (View(), r) == Serve(planner, old(View()), q)
    {
      evicted := [];
      var found := Get(statement, now);
      if found.Some? {
        return Ok(found.value), [];
      }
      r := planner(state, statement);
      if r.Ok? {
        evicted := InsertPlan(statement, r.value, size, now);
      }
    }
  }

  lemma {:induction false} OldestExists<S(!new), P>(m: map<S, Entry<P>>)
    requires m != map[]
    ensures exists k :: k in m && forall j | j in m :: m[k].lastUsed <= m[j].lastUsed
    decreases |m|
  {
    var k :| k in m;
    var rest := m - {k};
    assert forall j | j in m :: j == k || j in rest;
    if rest != map[] {
      OldestExists(rest);
      var o :| o in rest && forall j | j in rest :: rest[o].lastUsed <= rest[j].lastUsed;
      var best := if m[k].lastUsed <= m[o].lastUsed then k else o;
      assert best in m && forall j | j in m :: m[best].lastUsed <= m[j].lastUsed;
    }
  }
}
