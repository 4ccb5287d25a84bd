/** Prepared statements: client ids mapped to backend ids, backend ids mapped to plans. */
module PreparedStatements {
  import opened Basics

  const TWO_32: nat := 0x1_0000_0000
  const TWO_64: nat := 0x1_0000_0000_0000_0000

  // ----- The two levels -----

  datatype State<P> = State(client: map<nat, nat>, nextClient: nat, backend: map<nat, P>, nextBackend: nat)

  /** A command with what the planner made of it. A query with binary literals is prepared and executed at once. */
  datatype Command<P> = Prepare(plan: Option<P>) | Execute(id: nat) | Close(id: nat) | LiteralQuery(plan: Option<P>)

  datatype Response<P> = Prepared(id: nat) | Ran(plan: P) | Closed | UnknownStatement | StatementNotFound | PlanError

  function Initial<P>(): State<P> {
    State(map[], 1, map[], 0)
  }

  /** Opens a backend statement and takes a client id; both counters wrap. */
  function Open<P>(s: State<P>, plan: P): State<P> {
    State(s.client, (s.nextClient + 1) % TWO_32, s.backend[s.nextBackend := plan], (s.nextBackend + 1) % TWO_64)
  }

  function Lookup<P>(backend: map<nat, P>, id: nat): Response<P> {
    if id in backend then Ran(backend[id]) else StatementNotFound
  }

  function Step<P>(s: State<P>, c: Command<P>): (State<P>, Response<P>) {
    match c
    case Prepare(None) => (s, PlanError)
    case Prepare(Some(p)) =>
      var t := Open(s, p);
      (t.(client := s.client[s.nextClient := s.nextBackend]), Prepared(s.nextClient))
    case LiteralQuery(None) => (s, PlanError)
    case LiteralQuery(Some(p)) =>
      var t := Open(s, p);
      (t, Lookup(t.backend, s.nextBackend))
    case Execute(id) =>
      if id !in s.client then (s, UnknownStatement) else (s, Lookup(s.backend, s.client[id]))
    case Close(id) =>
      if id !in s.client then (s, Closed)
      else (s.(client := s.client - {id}, backend := s.backend - {s.client[id]}), Closed)
  }

  function Run<P>(cs: seq<Command<P>>): State<P> {
    if cs == [] then Initial() else Step(Run(cs[..|cs| - 1]), cs[|cs| - 1]).0
  }

  // ----- One level would do -----

  /** A session as the client sees it: its statements, and the id the next one gets. */
  datatype Simple<P> = Simple(statements: map<nat, P>, next: nat)

  function SimpleStep<P>(s: Simple<P>, c: Command<P>): (Simple<P>, Response<P>) {
    match c
    case Prepare(None) => (s, PlanError)
    case Prepare(Some(p)) => (Simple(s.statements[s.next := p], (s.next + 1) % TWO_32), Prepared(s.next))
    case LiteralQuery(None) => (s, PlanError)
    case LiteralQuery(Some(p)) => (s.(next := (s.next + 1) % TWO_32), Ran(p))
    case Execute(id) => (s, if id in s.statements then Ran(s.statements[id]) else UnknownStatement)
    case Close(id) => (s.(statements := s.statements - {id}), Closed)
  }

  /** The client id that goes with a backend id: both counters move together. */
  function ClientOf(backend: nat): nat {
    (backend + 1) % TWO_32
  }

  /** Live client ids name live backend statements, and each is the one that goes with its statement. */
  ghost predicate Linked<P>(s: State<P>) {
    && s.nextBackend < TWO_64 && s.nextClient == ClientOf(s.nextBackend)
    && forall i | i in s.client :: s.client[i] in s.backend && i == ClientOf(s.client[i])
  }

  /** The backend id to be opened next belongs to a live client id, which then is the next client id. */
  predicate Recurs<P>(s: State<P>) {
    s.nextClient in s.client && s.client[s.nextClient] == s.nextBackend
  }

  /** A query with binary literals that reopens the backend id of a live client id. */
  predicate Clashes<P>(s: State<P>, c: Command<P>) {
    c.LiteralQuery? && c.plan.Some? && Recurs(s)
  }

  ghost function View<P>(s: State<P>): Simple<P>
    requires forall i | i in s.client :: s.client[i] in s.backend
  {
    Simple(map i | i in s.client :: s.backend[s.client[i]], s.nextClient)
  }

  function Opens<P>(c: Command<P>): nat {
    match c
    case Prepare(Some(_)) => 1
    case LiteralQuery(Some(_)) => 1
    case _ => 0
  }

  lemma NextTogether(b: nat)
    ensures (ClientOf(b) + 1) % TWO_32 == ClientOf((b + 1) % TWO_64)
  {
    var q, r := (b + 1) / TWO_64, (b + 1) % TWO_64;
    assert b + 1 == q * TWO_64 + r;
    assert TWO_64 == TWO_32 * TWO_32;
  }

  lemma PrepareRefines<P>(s: State<P>, p: P)
    requires Linked(s)
    ensures var t := Step(s, Prepare(Some(p))).0;
            && Linked(t)
            && View(t) == Simple(View(s).statements[s.nextClient := p], (s.nextClient + 1) % TWO_32)
  {
    NextTogether(s.nextBackend);
    var t := Step(s, Prepare(Some(p))).0;
    assert View(t).statements == View(s).statements[s.nextClient := p];
  }

  /** The statement of the clashing client id, if there is one, becomes the new plan; all others stay. */
  lemma LiteralEffect<P>(s: State<P>, p: P)
    requires Linked(s)
    ensures var t := Step(s, LiteralQuery(Some(p))).0;
            && Linked(t)
            && View(t) == Simple(if Recurs(s) then View(s).statements[s.nextClient := p] else View(s).statements,
                                 (s.nextClient + 1) % TWO_32)
  {
    NextTogether(s.nextBackend);
    var t := Step(s, LiteralQuery(Some(p))).0;
    assert View(t).statements == if Recurs(s) then View(s).statements[s.nextClient := p] else View(s).statements;
  }

  lemma CloseRefines<P>(s: State<P>, id: nat)
    requires Linked(s)
    ensures var t := Step(s, Close(id)).0;
            && Linked(t)
            && View(t) == View(s).(statements := View(s).statements - {id})
  {
    var t := Step(s, Close(id)).0;
    assert View(t).statements == View(s).statements - {id};
  }

  /** A step answers like the single map, and keeps to it exactly unless it is a clash that brings another plan. */
  lemma StepRefinesExactly<P>(s: State<P>, c: Command<P>)
    requires Linked(s)
    ensures Linked(Step(s, c).0) && Step(s, c).1 == SimpleStep(View(s), c).1
    ensures View(Step(s, c).0) == SimpleStep(View(s), c).0 <==> (Clashes(s, c) ==> c.plan.value == s.backend[s.nextBackend])
  {
    match c
    case Prepare(Some(p)) => PrepareRefines(s, p);
    case LiteralQuery(Some(p)) =>
      LiteralEffect(s, p);
      var m := View(s).statements;
      assert m[s.nextClient := p] == m ==> m[s.nextClient := p][s.nextClient] == p;
    case Close(id) => CloseRefines(s, id);
    case _ =>
  }

  function Opened<P>(cs: seq<Command<P>>): nat {
    if cs == [] then 0 else Opened(cs[..|cs| - 1]) + Opens(cs[|cs| - 1])
  }

  function SimpleRun<P>(cs: seq<Command<P>>): Simple<P> {
    if cs == [] then Simple(map[], 1) else SimpleStep(SimpleRun(cs[..|cs| - 1]), cs[|cs| - 1]).0
  }

  /** No query with binary literals on the way clashes. */
  predicate NoClash<P>(cs: seq<Command<P>>) {
    cs == [] || (NoClash(cs[..|cs| - 1]) && !Clashes(Run(cs[..|cs| - 1]), cs[|cs| - 1]))
  }

  /** In every run ids stay linked. */
  lemma {:induction false} RunsStayLinked<P>(cs: seq<Command<P>>)
    ensures Linked(Run(cs))
  {
    if cs != [] {
      RunsStayLinked(cs[..|cs| - 1]);
      StepRefinesExactly(Run(cs[..|cs| - 1]), cs[|cs| - 1]);
    }
  }

  /**
    In every run, however long, in which no query with binary literals clashes, the two maps behave
    like the single one: the same answers, and a live id is always found in the backend.
   */
  lemma {:induction false} RunsRefineOneMap<P>(cs: seq<Command<P>>, next: Command<P>)
    requires NoClash(cs)
    ensures Linked(Run(cs)) && View(Run(cs)) == SimpleRun(cs)
    ensures Step(Run(cs), next).1 == SimpleStep(SimpleRun(cs), next).1
    ensures Step(Run(cs), next).1 != StatementNotFound
  {
    if cs == [] {
      assert View(Initial<P>()).statements == map[];
    } else {
      var last := |cs| - 1;
      RunsRefineOneMap(cs[..last], cs[last]);
      StepRefinesExactly(Run(cs[..last]), cs[last]);
    }
    StepRefinesExactly(Run(cs), next);
  }

  /** Backend ids are handed out in order and not yet for the second time. */
  ghost predicate Numbered<P>(s: State<P>, count: nat) {
    s.nextBackend == count && forall b | b in s.backend :: b < count
  }

  lemma {:induction false} FewOpeningsAreNumbered<P>(cs: seq<Command<P>>)
    requires Opened(cs) < TWO_64
    ensures Numbered(Run(cs), Opened(cs))
  {
    if cs != [] {
      FewOpeningsAreNumbered(cs[..|cs| - 1]);
    }
  }

  /** A clash takes at least 2^64 openings. */
  lemma {:induction false} FewOpeningsNeverClash<P>(cs: seq<Command<P>>)
    requires Opened(cs) < TWO_64
    ensures NoClash(cs)
  {
    if cs != [] {
      var init := cs[..|cs| - 1];
      FewOpeningsNeverClash(init);
      FewOpeningsAreNumbered(init);
      RunsStayLinked(init);
    }
  }

  // ----- A run that clashes -----

  /** One statement is prepared, then n queries with binary literals are run. */
  function OnePreparedThen<P>(p: P, q: P, n: nat): seq<Command<P>> {
    [Prepare(Some(p))] + seq(n, _ => LiteralQuery(Some(q)))
  }

  /** The first statement is live, and n openings followed it. */
  ghost predicate OneLive<P>(s: State<P>, p: P, n: nat) {
    && s.client == map[1 := 0] && s.nextBackend == (n + 1) % TWO_64 && s.nextClient == ClientOf(s.nextBackend)
    && 0 in s.backend && s.backend[0] == p
  }

  lemma OneMoreLiteral<P>(s: State<P>, p: P, q: P, n: nat)
    requires OneLive(s, p, n) && n + 1 < TWO_64
    ensures OneLive(Step(s, LiteralQuery(Some(q))).0, p, n + 1)
  {
    NextTogether(s.nextBackend);
  }

  lemma LastOfRun<P>(p: P, q: P, n: nat)
    requires n > 0
    ensures var cs := OnePreparedThen(p, q, n);
            cs[..|cs| - 1] == OnePreparedThen(p, q, n - 1) && cs[|cs| - 1] == LiteralQuery(Some(q))
  {
  }

  lemma {:induction false} AfterLiterals<P>(p: P, q: P, n: nat)
    requires n < TWO_64
    ensures OneLive(Run(OnePreparedThen(p, q, n)), p, n)
  {
    var cs := OnePreparedThen(p, q, n);
    if n == 0 {
      assert cs == [Prepare(Some(p))] && cs[..0] == [];
      assert Run(cs) == Step(Initial<P>(), Prepare(Some(p))).0;
    } else {
      LastOfRun(p, q, n);
      AfterLiterals(p, q, n - 1);
      OneMoreLiteral(Run(OnePreparedThen(p, q, n - 1)), p, q, n - 1);
    }
  }

  /**
    After 2^64 - 1 more openings the counters are back: the next query with binary literals replaces
    the plan of the one prepared statement, which then runs that query instead.
   */
  lemma LiteralReplacesLiveStatement<P>(p: P, q: P)
    ensures var cs := OnePreparedThen(p, q, TWO_64 - 1);
            && Step(Run(cs), Execute(1)).1 == Ran(p) && Clashes(Run(cs), LiteralQuery(Some(q)))
            && Step(Step(Run(cs), LiteralQuery(Some(q))).0, Execute(1)).1 == Ran(q)
  {
    AfterLiterals(p, q, TWO_64 - 1);
    assert ClientOf(0) == 1;
  }

  // ----- Statements that are never closed -----

  function Literals<P>(cs: seq<Command<P>>): nat {
    if cs == [] then 0 else Literals(cs[..|cs| - 1]) + Leaks(cs[|cs| - 1])
  }

  /** As long as the client counter has not wrapped, every id handed out is below it. */
  ghost predicate BelowCounter<P>(s: State<P>, count: nat) {
    s.nextClient == count + 1 && forall i | i in s.client :: i < s.nextClient
  }

  lemma RemovingOne<T>(m: map<nat, T>, k: nat)
    requires k in m
    ensures |m - {k}| == |m| - 1
  {
    assert (m - {k}).Keys == m.Keys - {k};
    assert |m.Keys - {k}| == |m.Keys| - 1;
  }

  lemma AddingOne<T>(m: map<nat, T>, k: nat, v: T)
    requires k !in m
    ensures |m[k := v]| == |m| + 1
  {
    assert m[k := v].Keys == m.Keys + {k};
    assert |m.Keys + {k}| == |m.Keys| + 1;
  }

  function Leaks<P>(c: Command<P>): nat {
    if c.LiteralQuery? && c.plan.Some? then 1 else 0
  }

  lemma CounterStep<P>(s: State<P>, c: Command<P>, count: nat)
    requires BelowCounter(s, count) && count + 2 < TWO_32
    ensures BelowCounter(Step(s, c).0, count + Opens(c))
  {
  }

  /** Backend statements without a client id. */
  function Orphans<P>(s: State<P>): int {
    |s.backend| - |s.client|
  }

  lemma PrepareLeaksNothing<P>(s: State<P>, p: P)
    requires s.nextBackend !in s.backend && s.nextClient !in s.client
    ensures Orphans(Step(s, Prepare(Some(p))).0) == Orphans(s)
  {
    AddingOne(s.backend, s.nextBackend, p);
    AddingOne(s.client, s.nextClient, s.nextBackend);
  }

  lemma LiteralLeaksOne<P>(s: State<P>, p: P)
    requires s.nextBackend !in s.backend
    ensures Orphans(Step(s, LiteralQuery(Some(p))).0) == Orphans(s) + 1
  {
    AddingOne(s.backend, s.nextBackend, p);
  }

  lemma CloseLeaksNothing<P>(s: State<P>, id: nat)
    requires id in s.client ==> s.client[id] in s.backend
    ensures Orphans(Step(s, Close(id)).0) == Orphans(s)
  {
    if id in s.client {
      RemovingOne(s.client, id);
      RemovingOne(s.backend, s.client[id]);
    }
  }

  lemma LeakStep<P>(s: State<P>, c: Command<P>)
    requires s.nextBackend !in s.backend && s.nextClient !in s.client
    requires c.Close? && c.id in s.client ==> s.client[c.id] in s.backend
    ensures Orphans(Step(s, c).0) == Orphans(s) + Leaks(c)
  {
    match c
    case Prepare(Some(p)) => PrepareLeaksNothing(s, p);
    case LiteralQuery(Some(p)) => LiteralLeaksOne(s, p);
    case Close(id) => CloseLeaksNothing(s, id);
    case _ =>
  }

  /** Queries with binary literals leave their backend statement open: exactly these are never closed. */
  lemma {:induction false} LiteralQueriesLeak<P>(cs: seq<Command<P>>)
    requires Opened(cs) + 2 < TWO_32
    ensures BelowCounter(Run(cs), Opened(cs))
    ensures Orphans(Run(cs)) == Literals(cs)
  {
    if cs != [] {
      var last := |cs| - 1;
      LiteralQueriesLeak(cs[..last]);
      RunsStayLinked(cs[..last]);
      FewOpeningsAreNumbered(cs[..last]);
      CounterStep(Run(cs[..last]), cs[last], Opened(cs[..last]));
      LeakStep(Run(cs[..last]), cs[last]);
    }
  }

  // ----- The objects -----

  class BackendSession<P> {
    var preparedQueries: map<nat, P>
    var currentPlanId: nat

    constructor ()
      ensures preparedQueries == map[] && currentPlanId == 0
    {
      preparedQueries, currentPlanId := map[], 0;
    }

    method StatementOpen(plan: P) returns (id: nat)
      modifies this
      ensures id == old(currentPlanId) && currentPlanId == (old(currentPlanId) + 1) % TWO_64
      ensures preparedQueries == old(preparedQueries)[id := plan]
    {
      id := currentPlanId;
      currentPlanId := (currentPlanId + 1) % TWO_64;
      preparedQueries := preparedQueries[id := plan];
    }

    method StatementExecute(id: nat) returns (r: Response<P>)
      ensures r == Lookup(preparedQueries, id)
    {
      if id !in preparedQueries {
        return StatementNotFound;
      }
      return Ran(preparedQueries[id]);
    }

    method StatementClose(id: nat)
      modifies this
      ensures preparedQueries == old(preparedQueries) - {id} && currentPlanId == old(currentPlanId)
    {
      preparedQueries := preparedQueries - {id};
    }
  }

  class ClientWrapper<P> {
    const session: BackendSession<P>
    var statements: map<nat, nat>
    var currentStatementId: nat

    constructor (session: BackendSession<P>)
      ensures this.session == session && statements == map[] && currentStatementId == 1
    {
      this.session := session;
      statements, currentStatementId := map[], 1;
    }

    ghost function View(): State<P>
      reads this, session
    {
      State(statements, currentStatementId, session.preparedQueries, session.currentPlanId)
    }

    method DoPrepare(plan: P) returns (id: nat, backendId: nat)
      modifies this, session
      ensures View() == Open(old(View()), plan)
      ensures id == old(currentStatementId) && backendId == old(session.currentPlanId)
    {
      backendId := session.StatementOpen(plan);
      id := currentStatementId;
      currentStatementId := (currentStatementId + 1) % TWO_32;
    }

    method HandlePrepare(plan: Option<P>) returns (r: Response<P>)
      modifies this, session
      ensures (View(), r) == Step(old(View()), Prepare(plan))
    {
      if plan.None? {
        return PlanError;
      }
      var id, backendId := DoPrepare(plan.value);
      statements := statements[id := backendId];
      return Prepared(id);
    }

    method HandleLiteralQuery(plan: Option<P>) returns (r: Response<P>)
      modifies this, session
      ensures (View(), r) == Step(old(View()), LiteralQuery(plan))
    {
      if plan.None? {
        return PlanError;
      }
      var id, backendId := DoPrepare(plan.value);
      r := session.StatementExecute(backendId);
    }

    method HandleExecute(id: nat) returns (r: Response<P>)
      ensures (View(), r) == Step(View(), Execute(id))
    {
      if id !in statements {
        return UnknownStatement;
      }
      r := session.StatementExecute(statements[id]);
    }

    method HandleClose(id: nat) returns (r: Response<P>)
      modifies this, session
      ensures (View(), r) == Step(old(View()), Close(id))
    {
      if id in statements {
        var backendId := statements[id];
        statements := statements - {id};
        session.StatementClose(backendId);
      }
      return Closed;
    }
  }

  // ----- Searching for a free id -----

  /** Statements by id, and the id after which the search for a free one starts. */
  class PreparedStatementsHolder<P> {
    var saved: map<nat, P>
    var next: nat

    constructor ()
      ensures saved == map[] && next == 0
    {
      saved, next := map[], 0;
    }

    /** None stands for the panic when no id is free. */
    method CreateStatement(p: P) returns (id: Option<nat>)
      requires next < TWO_32
      modifies this
      ensures next < TWO_32
      ensures id.Some? ==>
                && id.value == next && id.value !in old(saved) && saved == old(saved)[id.value := p]
                && exists d: nat :: FirstFree(old(saved), old(next), d) && id.value == After(old(next), d)
      ensures id.None? ==> saved == old(saved)
      ensures id.None? <==> forall i: nat | i < TWO_32 && i != old(next) :: i in old(saved)
    {
      var initial := (next + TWO_32 - 1) % TWO_32;
      ghost var d: nat := 0;
      while next != initial
        invariant d < TWO_32 && next == After(old(next), d) && saved == old(saved)
        invariant forall e: nat | 1 <= e <= d :: After(old(next), e) in saved
        decreases TWO_32 - d
      {
        d := d + 1;
        next := (next + 1) % TWO_32;
        AfterStep(old(next), d - 1);
        LastStep(old(next), d - 1);
        if next !in saved {
          saved := saved[next := p];
          assert FirstFree(old(saved), old(next), d);
          return Some(next);
        }
      }
      LastStep(old(next), d);
      forall i: nat | i < TWO_32 && i != old(next)
        ensures i in saved
      {
        var e := Distance(old(next), i);
      }
      return None;
    }
  }

  /** The id `d` places after `n`, wrapping. */
  function After(n: nat, d: nat): nat {
    (n + d) % TWO_32
  }

  /** All ids between `n` and the one `d` places after it are taken, and that one is free. */
  ghost predicate FirstFree<P>(saved: map<nat, P>, n: nat, d: nat) {
    && 1 <= d < TWO_32 && After(n, d) !in saved && After(n, d) != n
    && forall e: nat | 1 <= e < d :: After(n, e) in saved
  }

  lemma AfterStep(n: nat, d: nat)
    requires n < TWO_32 && d < TWO_32
    ensures (After(n, d) + 1) % TWO_32 == After(n, d + 1)
  {
  }

  /** The search has come full circle exactly after 2^32 - 1 places. */
  lemma LastStep(n: nat, d: nat)
    requires n < TWO_32 && d < TWO_32
    ensures After(n, d) == (n + TWO_32 - 1) % TWO_32 <==> d == TWO_32 - 1
  {
  }

  lemma Distance(n: nat, i: nat) returns (d: nat)
    requires n < TWO_32 && i < TWO_32 && i != n
    ensures 1 <= d < TWO_32 && After(n, d) == i
  {
    d := if i > n then i - n else i + TWO_32 - n;
  }
}
