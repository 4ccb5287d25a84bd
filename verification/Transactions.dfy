/**
  Transaction control of the proxy against a MySQL connection, and the weak scopes opened around
  nested sink executions. The server follows sections 15.3.1 and 15.3.3 of the MySQL 8.4 Reference
  Manual.
 */
module Transactions {
  import opened Basics

  type Write = int

  const TWO_32: int := 0x1_0000_0000

  // ----- The server -----

  datatype Server = Server(autocommit: bool, open: bool, committed: seq<Write>, pending: seq<Write>) {
    function Commit(): Server {
      Server(autocommit, false, committed + pending, [])
    }

    function Rollback(): Server {
      Server(autocommit, false, committed, [])
    }

    /** Starting a transaction commits the current one. */
    function Start(): Server {
      Commit().(open := true)
    }

    /** Turning autocommit on commits; repeating it does not. */
    function SetAutocommit(on: bool): Server {
      if on && !autocommit then Commit().(autocommit := true) else this.(autocommit := on)
    }

    function Perform(w: Write): Server {
      if autocommit && !open then this.(committed := committed + [w]) else this.(pending := pending + [w])
    }
  }

  // ----- The control operations -----

  datatype Status = NoTransaction | Forced | Weak(depth: nat)

  datatype State = State(autocommit: bool, status: Status, server: Server)

  datatype Op =
    | SetAutocommit(on: bool) | Commit | Rollback | Start
    | WeakStart | WeakCommit | WeakRollback
    | Perform(w: Write)

  const Initial := State(true, NoTransaction, Server(true, false, [], []))

  function Step(s: State, op: Op): State {
    match op
    case Commit => State(s.autocommit, NoTransaction, s.server.Commit())
    case Rollback => State(s.autocommit, NoTransaction, s.server.Rollback())
    case Start => State(s.autocommit, Forced, s.server.Commit().Start())
    case SetAutocommit(on) =>
      var server := if on then s.server.Commit() else s.server;
      State(on, NoTransaction, server.SetAutocommit(on))
    case WeakStart =>
      if !s.autocommit then s
      else if s.status.Weak? then s.(status := Weak((s.status.depth + 1) % TWO_32))
      else if s.status.NoTransaction? then State(true, Weak(1), s.server.Start())
      else s
    case WeakCommit =>
      if !s.autocommit || !s.status.Weak? || s.status.depth == 0 then s
      else if s.status.depth == 1 then State(true, NoTransaction, s.server.Commit())
      else s.(status := Weak(s.status.depth - 1))
    case WeakRollback =>
      if !s.autocommit || !s.status.Weak? then s
      else State(true, NoTransaction, s.server.Rollback())
    case Perform(w) => s.(server := s.server.Perform(w))
  }

  function Run(s: State, ops: seq<Op>): State {
    if ops == [] then s else Step(Run(s, ops[..|ops| - 1]), ops[|ops| - 1])
  }

  /** The control and the server agree; a weak scope is open only with autocommit on, and then it is counted. */
  predicate Consistent(s: State) {
    && s.autocommit == s.server.autocommit
    && (s.status.Weak? ==> s.autocommit && s.status.depth >= 1)
    && (s.status.Forced? ==> s.server.open)
    && (s.autocommit ==> (s.server.open <==> !s.status.NoTransaction?))
    && (s.autocommit && !s.server.open ==> s.server.pending == [])
  }

  function Depth(s: State): nat {
    if s.status.Weak? then s.status.depth else 0
  }

  /** Every run of fewer than 2^32 operations keeps control and server consistent. */
  lemma {:induction false} RunsAreConsistent(ops: seq<Op>)
    requires |ops| < TWO_32
    ensures Consistent(Run(Initial, ops)) && Depth(Run(Initial, ops)) <= |ops|
  {
    if ops != [] {
      RunsAreConsistent(ops[..|ops| - 1]);
    }
  }

  function WeakStarts(n: nat): seq<Op> {
    seq(n, _ => WeakStart)
  }

  lemma {:induction false} WeakStartsCount(n: nat)
    requires 1 <= n < TWO_32
    ensures Run(Initial, WeakStarts(n)) == State(true, Weak(n), Server(true, true, [], []))
  {
    assert WeakStarts(n)[..n - 1] == WeakStarts(n - 1);
    if n > 1 {
      WeakStartsCount(n - 1);
    } else {
      assert Run(Initial, WeakStarts(0)) == Initial;
    }
  }

  /** The bound is sharp: the depth is a 32-bit counter, and after 2^32 nested starts no weak commit ends the transaction. */
  lemma DepthWraps()
    ensures var s := Run(Initial, WeakStarts(TWO_32)); !Consistent(s) && s.server.open && Step(s, WeakCommit) == s
  {
    WeakStartsCount(TWO_32 - 1);
    assert WeakStarts(TWO_32)[..TWO_32 - 1] == WeakStarts(TWO_32 - 1);
  }

  // ----- Nested sink executions -----

  /**
    A sink over an input that may itself run sinks. The input can fail after its nested sinks, and
    the sink can fail after any number of its writes.
   */
  datatype Plan = Sink(input: seq<Plan>, inputFails: bool, writes: seq<Write>, failsAfter: Option<nat>)

  datatype Outcome = Outcome(state: State, ok: bool)

  function Done(p: Plan): seq<Write> {
    if p.failsAfter.Some? && p.failsAfter.value <= |p.writes| then p.writes[..p.failsAfter.value] else p.writes
  }

  function PerformAll(s: State, ws: seq<Write>): State {
    if ws == [] then s else Step(PerformAll(s, ws[..|ws| - 1]), Perform(ws[|ws| - 1]))
  }

  function Execute(s: State, p: Plan): Outcome
    decreases p, 1
  {
    var input := ExecuteAll(Step(s, WeakStart), p.input, p);
    if !input.ok || p.inputFails then
      Outcome(Step(input.state, WeakRollback), false)
    else
      var after := PerformAll(input.state, Done(p));
      if p.failsAfter.Some? then Outcome(Step(after, WeakRollback), false)
      else Outcome(Step(after, WeakCommit), true)
  }

  /** Runs plans in order and stops at the first failure. */
  function ExecuteAll(s: State, ps: seq<Plan>, parent: Plan): Outcome
    requires forall i | 0 <= i < |ps| :: ps[i] < parent
    decreases parent, 0, |ps|
  {
    if ps == [] then Outcome(s, true)
    else
      var init := ExecuteAll(s, ps[..|ps| - 1], parent);
      if init.ok then Execute(init.state, ps[|ps| - 1]) else init
  }

  /** All writes of a plan, in the order in which a run without failures makes them. */
  function AllWrites(p: Plan): seq<Write>
    decreases p, 1
  {
    WritesOf(p.input, p) + p.writes
  }

  function WritesOf(ps: seq<Plan>, parent: Plan): seq<Write>
    requires forall i | 0 <= i < |ps| :: ps[i] < parent
    decreases parent, 0, |ps|
  {
    if ps == [] then [] else WritesOf(ps[..|ps| - 1], parent) + AllWrites(ps[|ps| - 1])
  }

  /** How deeply sinks are nested. */
  function Height(p: Plan): nat
    decreases p, 1
  {
    1 + HeightOf(p.input, p)
  }

  function HeightOf(ps: seq<Plan>, parent: Plan): nat
    requires forall i | 0 <= i < |ps| :: ps[i] < parent
    decreases parent, 0, |ps|
  {
    if ps == [] then 0
    else
      var h, t := Height(ps[|ps| - 1]), HeightOf(ps[..|ps| - 1], parent);
      if h > t then h else t
  }

  /** A write outside autocommit mode, or inside a transaction, stays pending. */
  predicate Buffers(s: State) {
    !s.server.autocommit || s.server.open
  }

  function AddPending(s: State, ws: seq<Write>): State {
    s.(server := s.server.(pending := s.server.pending + ws))
  }

  lemma {:induction false} PerformAllBuffers(s: State, ws: seq<Write>)
    requires Buffers(s)
    ensures PerformAll(s, ws) == AddPending(s, ws)
  {
    if ws != [] {
      PerformAllBuffers(s, ws[..|ws| - 1]);
      assert ws == ws[..|ws| - 1] + [ws[|ws| - 1]];
    }
  }

  /** Inside an open weak scope. */
  predicate InWeakScope(s: State) {
    s.autocommit && s.server.autocommit && s.server.open && s.status.Weak? && s.status.depth >= 1
  }

  /** Nothing open, nothing pending, what was committed before is unchanged. */
  predicate RolledBack(s: State, t: State) {
    t == State(true, NoTransaction, Server(true, false, s.server.committed, []))
  }

  /** Inside a weak scope: success buffers all writes and restores the scope; failure rolls the whole scope back. */
  lemma {:induction false} ExecuteInWeakScope(s: State, p: Plan)
    requires InWeakScope(s) && s.status.depth + Height(p) < TWO_32
    ensures Execute(s, p).ok ==> Execute(s, p).state == AddPending(s, AllWrites(p))
    ensures !Execute(s, p).ok ==> RolledBack(s, Execute(s, p).state)
    decreases p, 1
  {
    var t := Step(s, WeakStart);
    ExecuteAllInWeakScope(t, p.input, p);
    var input := ExecuteAll(t, p.input, p);
    if input.ok && !p.inputFails {
      PerformAllBuffers(input.state, Done(p));
      assert AddPending(AddPending(t, WritesOf(p.input, p)), p.writes) == AddPending(t, AllWrites(p));
    }
  }

  lemma {:induction false} ExecuteAllInWeakScope(s: State, ps: seq<Plan>, parent: Plan)
    requires forall i | 0 <= i < |ps| :: ps[i] < parent
    requires InWeakScope(s) && s.status.depth + HeightOf(ps, parent) < TWO_32
    ensures ExecuteAll(s, ps, parent).ok ==> ExecuteAll(s, ps, parent).state == AddPending(s, WritesOf(ps, parent))
    ensures !ExecuteAll(s, ps, parent).ok ==> RolledBack(s, ExecuteAll(s, ps, parent).state)
    decreases parent, 0, |ps|
  {
    if ps == [] {
      assert s.server.pending + [] == s.server.pending;
    } else {
      var last := |ps| - 1;
      ExecuteAllInWeakScope(s, ps[..last], parent);
      var init := ExecuteAll(s, ps[..last], parent);
      if init.ok {
        ExecuteInWeakScope(init.state, ps[last]);
        assert AddPending(AddPending(s, WritesOf(ps[..last], parent)), AllWrites(ps[last])) == AddPending(s, WritesOf(ps, parent));
      }
    }
  }

  /** With autocommit on and no transaction, an execution is atomic, whatever fails. */
  lemma ExecuteIsAtomic(s: State, p: Plan)
    requires s.autocommit && s.status.NoTransaction? && Consistent(s) && Height(p) < TWO_32
    ensures var r := Execute(s, p);
            && r.state.status.NoTransaction? && !r.state.server.open && r.state.server.pending == []
            && r.state.server.committed == s.server.committed + if r.ok then AllWrites(p) else []
  {
    var t := Step(s, WeakStart);
    assert s.server.committed + [] == s.server.committed;
    ExecuteAllInWeakScope(t, p.input, p);
    var input := ExecuteAll(t, p.input, p);
    if input.ok && !p.inputFails {
      PerformAllBuffers(input.state, Done(p));
      assert [] + WritesOf(p.input, p) == WritesOf(p.input, p);
    }
  }

  /** A plan succeeds exactly when nothing in it fails. */
  predicate NoFailure(p: Plan)
    decreases p, 1
  {
    NoFailureIn(p.input, p) && !p.inputFails && p.failsAfter.None?
  }

  predicate NoFailureIn(ps: seq<Plan>, parent: Plan)
    requires forall i | 0 <= i < |ps| :: ps[i] < parent
    decreases parent, 0, |ps|
  {
    ps == [] || (NoFailureIn(ps[..|ps| - 1], parent) && NoFailure(ps[|ps| - 1]))
  }

  lemma {:induction false} SucceedsExactly(s: State, p: Plan)
    ensures Execute(s, p).ok <==> NoFailure(p)
    decreases p, 1
  {
    AllSucceedExactly(Step(s, WeakStart), p.input, p);
  }

  lemma {:induction false} AllSucceedExactly(s: State, ps: seq<Plan>, parent: Plan)
    requires forall i | 0 <= i < |ps| :: ps[i] < parent
    ensures ExecuteAll(s, ps, parent).ok <==> NoFailureIn(ps, parent)
    decreases parent, 0, |ps|
  {
    if ps != [] {
      AllSucceedExactly(s, ps[..|ps| - 1], parent);
      SucceedsExactly(ExecuteAll(s, ps[..|ps| - 1], parent).state, ps[|ps| - 1]);
    }
  }

  /** The user owns the transaction: weak operations do nothing. */
  predicate UserControlled(s: State) {
    Consistent(s) && (!s.autocommit || s.status.Forced?)
  }

  /** Some writes were added to the pending ones; nothing else changed. */
  predicate OnlyBuffered(s: State, t: State, all: seq<Write>, ok: bool) {
    && s.server.pending <= t.server.pending
    && t == AddPending(s, t.server.pending[|s.server.pending|..])
    && t.server.pending[|s.server.pending|..] <= all
    && (ok ==> t.server.pending[|s.server.pending|..] == all)
  }

  lemma OnlyBufferedThen(s: State, t: State, u: State, a: seq<Write>, b: seq<Write>, ok: bool)
    requires OnlyBuffered(s, t, a, true) && OnlyBuffered(t, u, b, ok)
    ensures OnlyBuffered(s, u, a + b, ok)
  {
    var n, m := |s.server.pending|, |t.server.pending|;
    assert u.server.pending[n..] == a + u.server.pending[m..];
    assert t.server.pending == s.server.pending + a;
    assert u.server.pending == s.server.pending + u.server.pending[n..];
  }

  /** Under a forced transaction or with autocommit off, an execution neither commits nor rolls back. */
  lemma {:induction false} ExecuteUnderUser(s: State, p: Plan)
    requires UserControlled(s)
    ensures OnlyBuffered(s, Execute(s, p).state, AllWrites(p), Execute(s, p).ok)
    decreases p, 1
  {
    assert Step(s, WeakStart) == s;
    ExecuteAllUnderUser(s, p.input, p);
    var input := ExecuteAll(s, p.input, p);
    var before := WritesOf(p.input, p);
    if input.ok && !p.inputFails {
      var after := PerformAll(input.state, Done(p));
      PerformAllBuffers(input.state, Done(p));
      assert after.server.pending[|input.state.server.pending|..] == Done(p);
      OnlyBufferedThen(s, input.state, after, before, p.writes, p.failsAfter.None?);
    } else {
      assert before <= AllWrites(p);
    }
  }

  lemma {:induction false} ExecuteAllUnderUser(s: State, ps: seq<Plan>, parent: Plan)
    requires forall i | 0 <= i < |ps| :: ps[i] < parent
    requires UserControlled(s)
    ensures UserControlled(ExecuteAll(s, ps, parent).state)
    ensures OnlyBuffered(s, ExecuteAll(s, ps, parent).state, WritesOf(ps, parent), ExecuteAll(s, ps, parent).ok)
    decreases parent, 0, |ps|
  {
    if ps == [] {
      assert s.server.pending[|s.server.pending|..] == [];
      assert AddPending(s, []) == s;
    } else {
      var last := |ps| - 1;
      ExecuteAllUnderUser(s, ps[..last], parent);
      var init := ExecuteAll(s, ps[..last], parent);
      var before := WritesOf(ps[..last], parent);
      if init.ok {
        ExecuteUnderUser(init.state, ps[last]);
        var r := Execute(init.state, ps[last]);
        OnlyBufferedThen(s, init.state, r.state, before, AllWrites(ps[last]), r.ok);
      } else {
        assert before <= WritesOf(ps, parent);
      }
    }
  }

  // ----- Sessions -----

  /** What a client can send: control statements of its own, and statements that run a plan. */
  datatype Command = Control(op: Op) | Statement(plan: Plan)

  predicate FromClient(c: Command) {
    match c
    case Control(op) => op.SetAutocommit? || op.Commit? || op.Rollback? || op.Start?
    case Statement(p) => Height(p) < TWO_32
  }

  function Obey(s: State, c: Command): State {
    match c
    case Control(op) => Step(s, op)
    case Statement(p) => Execute(s, p).state
  }

  function Session(s: State, cs: seq<Command>): State {
    if cs == [] then s else Obey(Session(s, cs[..|cs| - 1]), cs[|cs| - 1])
  }

  lemma ObeyKeepsConsistency(s: State, c: Command)
    requires Consistent(s) && !s.status.Weak? && FromClient(c)
    ensures Consistent(Obey(s, c)) && !Obey(s, c).status.Weak?
    ensures s.server.committed <= Obey(s, c).server.committed
  {
    if c.Statement? {
      if UserControlled(s) {
        ExecuteUnderUser(s, c.plan);
      } else {
        ExecuteIsAtomic(s, c.plan);
        ExecuteKeepsModes(s, c.plan);
      }
    }
  }

  lemma ExecuteKeepsModes(s: State, p: Plan)
    requires s.autocommit && s.status.NoTransaction? && Consistent(s) && Height(p) < TWO_32
    ensures Execute(s, p).state.autocommit && Execute(s, p).state.server.autocommit
  {
    var t := Step(s, WeakStart);
    ExecuteAllInWeakScope(t, p.input, p);
    var input := ExecuteAll(t, p.input, p);
    if input.ok && !p.inputFails {
      PerformAllBuffers(input.state, Done(p));
    }
  }

  /**
    In every session no weak scope outlives its statement, control and server agree after each
    command, and committed writes are never lost.
   */
  lemma {:induction false} SessionsAreConsistent(cs: seq<Command>, k: nat)
    requires forall i | 0 <= i < |cs| :: FromClient(cs[i])
    requires k <= |cs|
    ensures Consistent(Session(Initial, cs)) && !Session(Initial, cs).status.Weak?
    ensures Session(Initial, cs[..k]).server.committed <= Session(Initial, cs).server.committed
  {
    if cs == [] {
    } else if k == |cs| {
      assert cs[..k] == cs;
      SessionsAreConsistent(cs[..k - 1], k - 1);
      ObeyKeepsConsistency(Session(Initial, cs[..k - 1]), cs[k - 1]);
    } else {
      var last := |cs| - 1;
      assert cs[..last][..k] == cs[..k];
      SessionsAreConsistent(cs[..last], k);
      ObeyKeepsConsistency(Session(Initial, cs[..last]), cs[last]);
    }
  }

  // ----- What a transaction of the client does -----

  function Statements(ps: seq<Plan>): seq<Command> {
    seq(|ps|, i requires 0 <= i < |ps| => Statement(ps[i]))
  }

  function Concat(bs: seq<seq<Write>>): seq<Write> {
    if bs == [] then [] else Concat(bs[..|bs| - 1]) + bs[|bs| - 1]
  }

  /** What each statement buffers: a prefix of its writes, all of them if nothing in it fails. */
  predicate BufferedBy(ps: seq<Plan>, bs: seq<seq<Write>>) {
    |bs| == |ps| && forall i | 0 <= i < |ps| :: bs[i] <= AllWrites(ps[i]) && (NoFailure(ps[i]) ==> bs[i] == AllWrites(ps[i]))
  }

  /** `b` was added to the pending writes and nothing else changed. */
  predicate Adds(s: State, t: State, b: seq<Write>) {
    && t.server.committed == s.server.committed && t.server.pending == s.server.pending + b
    && t.autocommit == s.autocommit && UserControlled(t)
  }

  lemma StatementBuffers(s: State, p: Plan) returns (b: seq<Write>)
    requires UserControlled(s)
    ensures Adds(s, Execute(s, p).state, b) && b <= AllWrites(p) && (NoFailure(p) ==> b == AllWrites(p))
  {
    ExecuteUnderUser(s, p);
    SucceedsExactly(s, p);
    b := Execute(s, p).state.server.pending[|s.server.pending|..];
    assert Execute(s, p).state.server.pending == s.server.pending + b;
  }

  lemma AddsThen(s: State, t: State, u: State, a: seq<Write>, b: seq<Write>)
    requires Adds(s, t, a) && Adds(t, u, b)
    ensures Adds(s, u, a + b)
  {
  }

  /** While the client controls the transaction, statements only add to the pending writes, in order. */
  lemma {:induction false} StatementsBuffer(s: State, ps: seq<Plan>) returns (bs: seq<seq<Write>>)
    requires UserControlled(s)
    ensures BufferedBy(ps, bs) && Adds(s, Session(s, Statements(ps)), Concat(bs))
    decreases |ps|
  {
    if ps == [] {
      bs := [];
    } else {
      var last := |ps| - 1;
      var init := StatementsBuffer(s, ps[..last]);
      assert Statements(ps)[..last] == Statements(ps[..last]);
      var t := Session(s, Statements(ps[..last]));
      var b := StatementBuffers(t, ps[last]);
      bs := init + [b];
      assert bs[..last] == init;
      AddsThen(s, t, Execute(t, ps[last]).state, Concat(init), b);
    }
  }

  /** A client that controls the transaction runs some statements and then gives the command. */
  function Ended(s: State, ps: seq<Plan>, op: Op): State {
    Step(Session(s, Statements(ps)), op)
  }

  /** Rolling back drops all that was pending and leaves what was committed. */
  lemma RollbackDropsWrites(s: State, ps: seq<Plan>)
    requires UserControlled(s)
    ensures Ended(s, ps, Rollback).server.committed == s.server.committed
    ensures Ended(s, ps, Rollback).server.pending == []
  {
    var bs := StatementsBuffer(s, ps);
  }

  /**
    Committing adds exactly what was pending and what the statements buffered, in order; starting
    another transaction and turning autocommit on do the same.
   */
  lemma CommitKeepsWrites(s: State, ps: seq<Plan>, op: Op) returns (bs: seq<seq<Write>>)
    requires UserControlled(s) && (op == Commit || op == Start || op == Op.SetAutocommit(true))
    ensures BufferedBy(ps, bs)
    ensures Ended(s, ps, op).server.committed == s.server.committed + s.server.pending + Concat(bs)
    ensures Ended(s, ps, op).server.pending == []
  {
    bs := StatementsBuffer(s, ps);
  }

  /** Turning autocommit off, or off again, writes nothing. */
  lemma AutocommitOffKeepsPending(s: State, ps: seq<Plan>) returns (bs: seq<seq<Write>>)
    requires UserControlled(s)
    ensures BufferedBy(ps, bs)
    ensures Ended(s, ps, Op.SetAutocommit(false)).server.committed == s.server.committed
    ensures Ended(s, ps, Op.SetAutocommit(false)).server.pending == s.server.pending + Concat(bs)
  {
    bs := StatementsBuffer(s, ps);
  }

  lemma {:induction false} SessionPieces(s: State, cs: seq<Command>, ds: seq<Command>)
    ensures Session(s, cs + ds) == Session(Session(s, cs), ds)
    decreases |ds|
  {
    if ds == [] {
      assert cs + ds == cs;
    } else {
      var n := |ds| - 1;
      assert (cs + ds)[..|cs + ds| - 1] == cs + ds[..n];
      SessionPieces(s, cs, ds[..n]);
    }
  }

  /**
    In any session: a transaction that is started, runs statements and is rolled back leaves committed
    and pending writes as they were right after the start; if it is committed instead, it adds
    exactly what its statements buffered, in order.
   */
  lemma TransactionsAreObeyed(cs: seq<Command>, ps: seq<Plan>) returns (bs: seq<seq<Write>>)
    requires forall i | 0 <= i < |cs| :: FromClient(cs[i])
    ensures BufferedBy(ps, bs)
    ensures var begun := Session(Initial, cs + [Control(Start)]);
            var before := Session(Initial, cs);
            var rolledBack := Session(Initial, cs + [Control(Start)] + Statements(ps) + [Control(Rollback)]);
            var committed := Session(Initial, cs + [Control(Start)] + Statements(ps) + [Control(Commit)]);
            && begun.server.committed == before.server.committed + before.server.pending && begun.server.pending == []
            && rolledBack.server.committed == begun.server.committed && rolledBack.server.pending == []
            && committed.server.committed == begun.server.committed + Concat(bs) && committed.server.pending == []
  {
    var before := Session(Initial, cs);
    SessionsAreConsistent(cs, |cs|);
    SessionAppend(Initial, cs, Control(Start));
    var begun := Session(Initial, cs + [Control(Start)]);
    assert UserControlled(begun);
    bs := StatementsBuffer(begun, ps);
    SessionPieces(Initial, cs + [Control(Start)], Statements(ps));
    SessionAppend(Initial, cs + [Control(Start)] + Statements(ps), Control(Rollback));
    SessionAppend(Initial, cs + [Control(Start)] + Statements(ps), Control(Commit));
    assert [] + Concat(bs) == Concat(bs);
  }

  lemma SessionAppend(s: State, cs: seq<Command>, c: Command)
    ensures Session(s, cs + [c]) == Obey(Session(s, cs), c)
  {
    assert (cs + [c])[..|cs + [c]| - 1] == cs;
  }

  // ----- The objects -----

  class Connection {
    var server: Server

    constructor ()
      ensures server == Initial.server
    {
      server := Initial.server;
    }

    method Commit()
      modifies this
      ensures server == old(server).Commit()
    {
      server := Server(server.autocommit, false, server.committed + server.pending, []);
    }

    method Rollback()
      modifies this
      ensures server == old(server).Rollback()
    {
      server := server.(open := false, pending := []);
    }

    method StartTransaction()
      modifies this
      ensures server == old(server).Start()
    {
      Commit();
      server := server.(open := true);
    }

    method SetAutocommit(on: bool)
      modifies this
      ensures server == old(server).SetAutocommit(on)
    {
      if on && !server.autocommit {
        Commit();
      }
      server := server.(autocommit := on);
    }

    method Perform(w: Write)
      modifies this
      ensures server == old(server).Perform(w)
    {
      if server.autocommit && !server.open {
        server := server.(committed := server.committed + [w]);
      } else {
        server := server.(pending := server.pending + [w]);
      }
    }
  }

  class TransactionControl {
    var autocommit: bool
    var current: Status

    constructor ()
      ensures autocommit && current == NoTransaction
    {
      autocommit, current := true, NoTransaction;
    }

    ghost function View(conn: Connection): State
      reads this, conn
    {
      State(autocommit, current, conn.server)
    }

    method SetAutocommit(on: bool, conn: Connection)
      modifies this, conn
      ensures View(conn) == Step(old(View(conn)), Op.SetAutocommit(on))
    {
      if on {
        Commit(conn);
      }
      autocommit := on;
      current := NoTransaction;
      conn.SetAutocommit(on);
    }

    method WeakCommit(conn: Connection)
      modifies this, conn
      ensures View(conn) == Step(old(View(conn)), Op.WeakCommit)
    {
      if autocommit && current.Weak? && current.depth > 0 {
        current := Weak(current.depth - 1);
        if current.depth == 0 {
          conn.Commit();
          current := NoTransaction;
        }
      }
    }

    method WeakRollback(conn: Connection)
      modifies this, conn
      ensures View(conn) == Step(old(View(conn)), Op.WeakRollback)
    {
      if autocommit && current.Weak? {
        conn.Rollback();
        current := NoTransaction;
      }
    }

    method WeakStartTransaction(conn: Connection)
      modifies this, conn
      ensures View(conn) == Step(old(View(conn)), Op.WeakStart)
    {
      if autocommit {
        if current.Weak? {
          current := Weak((current.depth + 1) % TWO_32);
        } else if current.NoTransaction? {
          conn.StartTransaction();
          current := Weak(1);
        }
      }
    }

    method Commit(conn: Connection)
      modifies this, conn
      ensures View(conn) == Step(old(View(conn)), Op.Commit)
      ensures autocommit == old(autocommit)
    {
      conn.Commit();
      current := NoTransaction;
    }

    method Rollback(conn: Connection)
      modifies this, conn
      ensures View(conn) == Step(old(View(conn)), Op.Rollback)
    {
      conn.Rollback();
      current := NoTransaction;
    }

    method StartTransaction(conn: Connection)
      modifies this, conn
      ensures View(conn) == Step(old(View(conn)), Op.Start)
    {
      Commit(conn);
      conn.StartTransaction();
      current := Forced;
    }
  }

  /** Executes a sink: input first, then the writes, inside a weak scope. */
  method ExecuteSink(p: Plan, tx: TransactionControl, conn: Connection) returns (ok: bool)
    modifies tx, conn
    ensures Outcome(tx.View(conn), ok) == Execute(old(tx.View(conn)), p)
    decreases p, 1
  {
    tx.WeakStartTransaction(conn);
    var inputOk := ExecuteInput(p, tx, conn);
    if !inputOk || p.inputFails {
      tx.WeakRollback(conn);
      return false;
    }
    PerformWrites(Done(p), tx, conn);
    if p.failsAfter.Some? {
      tx.WeakRollback(conn);
      return false;
    }
    tx.WeakCommit(conn);
    return true;
  }

  /** Executes the input of a sink, up to the first failure. */
  method ExecuteInput(p: Plan, tx: TransactionControl, conn: Connection) returns (ok: bool)
    modifies tx, conn
    ensures Outcome(tx.View(conn), ok) == ExecuteAll(old(tx.View(conn)), p.input, p)
    decreases p, 0
  {
    ghost var start := tx.View(conn);
    for i := 0 to |p.input|
      invariant Outcome(tx.View(conn), true) == ExecuteAll(start, p.input[..i], p)
    {
      assert p.input[..i + 1][..i] == p.input[..i];
      ok := ExecuteSink(p.input[i], tx, conn);
      if !ok {
        StopsAtFailure(start, p.input, p, i + 1);
        return false;
      }
    }
    assert p.input[..|p.input|] == p.input;
    return true;
  }

  method PerformWrites(ws: seq<Write>, tx: TransactionControl, conn: Connection)
    modifies conn
    ensures tx.View(conn) == PerformAll(old(tx.View(conn)), ws)
  {
    ghost var start := tx.View(conn);
    for i := 0 to |ws|
      invariant tx.View(conn) == PerformAll(start, ws[..i])
    {
      assert ws[..i + 1][..i] == ws[..i];
      conn.Perform(ws[i]);
    }
    assert ws[..|ws|] == ws;
  }

  lemma {:induction false} StopsAtFailure(s: State, ps: seq<Plan>, parent: Plan, n: nat)
    requires forall i | 0 <= i < |ps| :: ps[i] < parent
    requires n <= |ps| && !ExecuteAll(s, ps[..n], parent).ok
    ensures ExecuteAll(s, ps, parent) == ExecuteAll(s, ps[..n], parent)
    decreases |ps|
  {
    if n == |ps| {
      assert ps[..n] == ps;
    } else {
      assert ps[..|ps| - 1][..n] == ps[..n];
      StopsAtFailure(s, ps[..|ps| - 1], parent, n);
    }
  }
}
