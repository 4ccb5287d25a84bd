/** Resolving the filters of a scan against the table and its indices. */
module Resolver {
  import opened Basics
  import opened Filter
  import opened SplitBounds
  import opened SplitExact
  import opened Rows
  import opened OptimizeCmp
  import opened Sql
  import BlindIndex
  import RangeIndex

  datatype Strategy<E> = Fixed(condition: Condition<E>) | Dynamic(filter: Expr<E>)

  datatype EncryptedIndex<!E> = EncryptedIndex(logical: Support<E>, physical: Option<Support<E>>,
                                               query: Expr<E> -> Result<Strategy<E>>)
  {
    function SupportIn(physicalPhase: bool): Option<Support<E>> {
      if physicalPhase then physical else Some(logical)
    }
  }

  /** Conditions for the server and filters to be run as dynamic queries. */
  datatype Plan<E> = Plan(forwarded: seq<Condition<E>>, dynamic: seq<Expr<E>>)

  function AddStrategy<E>(plan: Plan<E>, s: Strategy<E>): Plan<E> {
    match s
    case Fixed(c) => plan.(forwarded := plan.forwarded + [c])
    case Dynamic(f) => plan.(dynamic := plan.dynamic + [f])
  }

  /**
    The loop over the indices. An index without physical support takes the remainder and does not
    give it back, so in the physical phase nothing after it is consulted.
   */
  function Consult<E>(rest: Option<Expr<E>>, indices: seq<EncryptedIndex<E>>, phase: bool, plan: Plan<E>): Result<Plan<E>>
    decreases |indices|
  {
    if indices == [] || rest.None? then Ok(plan)
    else
      match indices[0].SupportIn(phase)
      case None => Consult(None, indices[1..], phase, plan)
      case Some(o) =>
        var p := Split(rest.value, o);
        if p.supported.None? then Consult(p.unsupported, indices[1..], phase, plan)
        else
          var s :- indices[0].query(p.supported.value);
          Consult(p.unsupported, indices[1..], phase, AddStrategy(plan, s))
  }

  method ConsultIndices<E>(unsupported: Option<Expr<E>>, indices: seq<EncryptedIndex<E>>, phase: bool, plan: Plan<E>)
    returns (r: Result<Plan<E>>)
    ensures r == Consult(unsupported, indices, phase, plan)
  {
    var rest, out := unsupported, plan;
    for i := 0 to |indices|
      invariant Consult(unsupported, indices, phase, plan) == Consult(rest, indices[i..], phase, out)
    {
      if rest.None? { break; }
      var taken := rest.value;
      rest := None;
      assert indices[i..][0] == indices[i] && indices[i..][1..] == indices[i + 1..];
      var support := indices[i].SupportIn(phase);
      if support.None? { continue; }
      var p := Split(taken, support.value);
      rest := p.unsupported;
      if p.supported.None? { continue; }
      var s := indices[i].query(p.supported.value);
      if s.Err? { return Err(s.error); }
      out := AddStrategy(out, s.value);
    }
    r := Ok(out);
  }

  /** Conjunction, from the left, of what the table could not take of each filter. */
  function Remainder<E>(filters: seq<Expr<E>>, table: Support<E>): Option<Expr<E>> {
    if filters == [] then None
    else
      var last := |filters| - 1;
      Recombine(Remainder(filters[..last], table), Split(filters[last], table).unsupported, Conjunction)
  }

  /** The conditions forwarded as they stand. */
  function ForwardAll<E>(filters: seq<Expr<E>>, table: Support<E>): Result<seq<Condition<E>>> {
    if filters == [] then Ok([])
    else
      var last := |filters| - 1;
      var init :- ForwardAll(filters[..last], table);
      match Split(filters[last], table).supported
      case None => Ok(init)
      case Some(f) =>
        var c :- Forward(f);
        Ok(init + [c])
  }

  function OptimizeOption<E>(f: Option<Expr<E>>): Option<Expr<E>> {
    match f
    case None => None
    case Some(g) => Some(Optimize(g))
  }

  function Resolve<E>(filters: seq<Expr<E>>, table: Support<E>, indices: seq<EncryptedIndex<E>>): Result<Plan<E>> {
    var forwarded :- ForwardAll(filters, table);
    Consult(OptimizeOption(Remainder(filters, table)), indices, false, Plan(forwarded, []))
  }

  /** The positions of the filters that need no second check: those forwarded whole. */
  method FullySupported<E>(filters: seq<Expr<E>>, table: Support<E>) returns (positions: seq<nat>)
    ensures forall i: nat :: i in positions <==> i < |filters| && Split(filters[i], table) == Parts(Some(filters[i]), None)
  {
    positions := [];
    for n := 0 to |filters|
      invariant forall i: nat :: i in positions <==> i < n && Split(filters[i], table) == Parts(Some(filters[i]), None)
    {
      if Split(filters[n], table).unsupported.None? {
        positions := positions + [n];
      }
    }
  }

  method ResolveLogical<E>(filters: seq<Expr<E>>, table: Support<E>, indices: seq<EncryptedIndex<E>>)
    returns (r: Result<Plan<E>>)
    ensures r == Resolve(filters, table, indices)
  {
    var forwarded: seq<Condition<E>>, unsupported: Option<Expr<E>> := [], None;
    for n := 0 to |filters|
      invariant ForwardAll(filters[..n], table) == Ok(forwarded)
      invariant unsupported == Remainder(filters[..n], table)
    {
      assert filters[..n + 1][..n] == filters[..n];
      var p := Split(filters[n], table);
      unsupported := Recombine(unsupported, p.unsupported, Conjunction);
      if p.supported.Some? {
        var c := Forward(p.supported.value);
        if c.Err? {
          ForwardFails(filters, table, n + 1);
          return Err(c.error);
        }
        forwarded := forwarded + [c.value];
      }
    }
    assert filters[..|filters|] == filters;
    r := ConsultIndices(OptimizeOption(unsupported), indices, false, Plan(forwarded, []));
  }

  lemma {:induction false} ForwardFails<E>(filters: seq<Expr<E>>, table: Support<E>, n: nat)
    requires n <= |filters| && ForwardAll(filters[..n], table).Err?
    ensures ForwardAll(filters, table) == Err(ForwardAll(filters[..n], table).error)
  {
    if n == |filters| {
      assert filters[..n] == filters;
    } else {
      assert filters[..|filters| - 1][..n] == filters[..n];
      ForwardFails(filters[..|filters| - 1], table, n);
    }
  }

  // ----- What is announced to the planner -----

  datatype Pushdown = Exact | Inexact | Unsupported

  method FilterSupported<E>(f: Expr<E>, table: Support<E>, indices: seq<EncryptedIndex<E>>) returns (r: Pushdown)
    ensures r == Exact <==> Split(f, table) == Parts(Some(f), None)
    ensures r == Unsupported <==>
              && Split(f, table).supported.None?
              && Consult(Split(f, table).unsupported, indices, false, Plan([], [])) == Ok(Plan([], []))
  {
    var p := Split(f, table);
    if p.unsupported.None? { return Exact; }
    if p.supported.Some? { return Inexact; }
    var rest := p.unsupported;
    for i := 0 to |indices|
      invariant Consult(p.unsupported, indices, false, Plan([], [])) == Consult(rest, indices[i..], false, Plan([], []))
    {
      if rest.None? { break; }
      assert indices[i..][0] == indices[i] && indices[i..][1..] == indices[i + 1..];
      var q := Split(rest.value, indices[i].logical);
      if q.supported.Some? {
        var s := indices[i].query(q.supported.value);
        if s.Ok? {
          ConsultOnlyAdds(q.unsupported, indices[i + 1..], false, AddStrategy(Plan([], []), s.value));
        }
        return Inexact;
      }
      rest := q.unsupported;
    }
    r := Unsupported;
  }

  lemma {:induction false} ConsultOnlyAdds<E>(rest: Option<Expr<E>>, indices: seq<EncryptedIndex<E>>, phase: bool, plan: Plan<E>)
    ensures Consult(rest, indices, phase, plan).Ok? ==>
              && plan.forwarded <= Consult(rest, indices, phase, plan).value.forwarded
              && plan.dynamic <= Consult(rest, indices, phase, plan).value.dynamic
    decreases |indices|
  {
    if indices != [] && rest.Some? {
      match indices[0].SupportIn(phase)
      case None => ConsultOnlyAdds(None, indices[1..], phase, plan);
      case Some(o) =>
        var p := Split(rest.value, o);
        if p.supported.None? {
          ConsultOnlyAdds(p.unsupported, indices[1..], phase, plan);
        } else if indices[0].query(p.supported.value).Ok? {
          ConsultOnlyAdds(p.unsupported, indices[1..], phase, AddStrategy(plan, indices[0].query(p.supported.value).value));
        }
    }
  }

  /** In the physical phase the indices after the first one without physical support are never consulted. */
  lemma {:induction false} PhysicalPhaseStops<E>(rest: Option<Expr<E>>, indices: seq<EncryptedIndex<E>>, k: nat, plan: Plan<E>)
    requires k < |indices| && indices[k].physical.None?
    ensures Consult(rest, indices, true, plan) == Consult(rest, indices[..k], true, plan)
    decreases |indices|
  {
    if k == 0 {
      assert indices[..k] == [];
    } else if rest.Some? && indices[0].physical.Some? {
      var p := Split(rest.value, indices[0].physical.value);
      assert indices[..k][1..] == indices[1..][..k - 1];
      if p.supported.None? {
        PhysicalPhaseStops(p.unsupported, indices[1..], k - 1, plan);
      } else if indices[0].query(p.supported.value).Ok? {
        PhysicalPhaseStops(p.unsupported, indices[1..], k - 1, AddStrategy(plan, indices[0].query(p.supported.value).value));
      }
    }
  }

  // ----- The loop that would keep the remainder -----

  /** The physical loop as intended: an index without physical support is passed over. */
  function ConsultSkipping<E>(rest: Option<Expr<E>>, indices: seq<EncryptedIndex<E>>, plan: Plan<E>): Result<Plan<E>>
    decreases |indices|
  {
    if indices == [] || rest.None? then Ok(plan)
    else
      match indices[0].physical
      case None => ConsultSkipping(rest, indices[1..], plan)
      case Some(o) =>
        var p := Split(rest.value, o);
        if p.supported.None? then ConsultSkipping(p.unsupported, indices[1..], plan)
        else
          var s :- indices[0].query(p.supported.value);
          ConsultSkipping(p.unsupported, indices[1..], AddStrategy(plan, s))
  }

  /** No index with physical support could take a part of the remainder. */
  predicate NoneTakes<E>(rest: Option<Expr<E>>, indices: seq<EncryptedIndex<E>>)
    decreases |indices|
  {
    indices == [] || rest.None? ||
    match indices[0].physical
    case None => NoneTakes(rest, indices[1..])
    case Some(o) => Split(rest.value, o).supported.None? && NoneTakes(Split(rest.value, o).unsupported, indices[1..])
  }

  /** No index behind the first one without physical support could take a part of what reaches that one. */
  predicate NothingSwallowed<E>(rest: Option<Expr<E>>, indices: seq<EncryptedIndex<E>>)
    decreases |indices|
  {
    indices == [] || rest.None? ||
    match indices[0].physical
    case None => NoneTakes(rest, indices[1..])
    case Some(o) =>
      var p := Split(rest.value, o);
      || (p.supported.Some? && indices[0].query(p.supported.value).Err?)
      || NothingSwallowed(p.unsupported, indices[1..])
  }

  function Count<E>(plan: Plan<E>): nat {
    |plan.forwarded| + |plan.dynamic|
  }

  lemma {:induction false} SkippingOnlyAdds<E>(rest: Option<Expr<E>>, indices: seq<EncryptedIndex<E>>, plan: Plan<E>)
    ensures ConsultSkipping(rest, indices, plan).Ok? ==> Count(plan) <= Count(ConsultSkipping(rest, indices, plan).value)
    decreases |indices|
  {
    if indices != [] && rest.Some? {
      match indices[0].physical
      case None => SkippingOnlyAdds(rest, indices[1..], plan);
      case Some(o) =>
        var p := Split(rest.value, o);
        if p.supported.None? {
          SkippingOnlyAdds(p.unsupported, indices[1..], plan);
        } else if indices[0].query(p.supported.value).Ok? {
          SkippingOnlyAdds(p.unsupported, indices[1..], AddStrategy(plan, indices[0].query(p.supported.value).value));
        }
    }
  }

  lemma {:induction false} NoneTakesExactly<E>(rest: Option<Expr<E>>, indices: seq<EncryptedIndex<E>>, plan: Plan<E>)
    ensures ConsultSkipping(rest, indices, plan) == Ok(plan) <==> NoneTakes(rest, indices)
    decreases |indices|
  {
    if indices != [] && rest.Some? {
      match indices[0].physical
      case None => NoneTakesExactly(rest, indices[1..], plan);
      case Some(o) =>
        var p := Split(rest.value, o);
        if p.supported.None? {
          NoneTakesExactly(p.unsupported, indices[1..], plan);
        } else if indices[0].query(p.supported.value).Ok? {
          SkippingOnlyAdds(p.unsupported, indices[1..], AddStrategy(plan, indices[0].query(p.supported.value).value));
        }
    }
  }

  /** The physical loop does what was intended exactly when nothing is swallowed. */
  lemma {:induction false} PhysicalLoopExactly<E>(rest: Option<Expr<E>>, indices: seq<EncryptedIndex<E>>, plan: Plan<E>)
    ensures Consult(rest, indices, true, plan) == ConsultSkipping(rest, indices, plan) <==> NothingSwallowed(rest, indices)
    decreases |indices|
  {
    if indices != [] && rest.Some? {
      match indices[0].physical
      case None => NoneTakesExactly(rest, indices[1..], plan);
      case Some(o) =>
        var p := Split(rest.value, o);
        if p.supported.None? {
          PhysicalLoopExactly(p.unsupported, indices[1..], plan);
        } else if indices[0].query(p.supported.value).Ok? {
          PhysicalLoopExactly(p.unsupported, indices[1..], AddStrategy(plan, indices[0].query(p.supported.value).value));
        }
    }
  }

  /** Behind an index without physical support, a filter that the next index would answer is never forwarded. */
  lemma SupportedFilterIsSwallowed<E>(first: EncryptedIndex<E>, x: EncryptedIndex<E>, f: Expr<E>, c: Condition<E>)
    requires first.physical.None? && x.physical.Some? && x.physical.value.isSupported(f) && x.query(f) == Ok(Fixed(c))
    ensures Consult(Some(f), [first, x], true, Plan([], [])) == Ok(Plan([], []))
    ensures ConsultSkipping(Some(f), [first, x], Plan([], [])) == Ok(Plan([c], []))
  {
    assert [first, x][1..] == [x] && [x][1..] == [];
    assert Split(f, x.physical.value) == Parts(Some(f), None);
    assert AddStrategy(Plan([], []), Fixed(c)) == Plan([c], []);
    assert Consult(None, [x], true, Plan([], [])) == Ok(Plan([], []));
    assert ConsultSkipping(None, [], Plan([c], [])) == Ok(Plan([c], []));
    assert ConsultSkipping(Some(f), [x], Plan([], [])) == Ok(Plan([c], []));
  }

  /** In particular an equality on the column of a blind index. */
  lemma BlindEqualityIsSwallowed<E>(first: EncryptedIndex<E>, x: BlindIndex.Index, c: ColumnWithCast, v: Scalar)
    requires first.physical.None? && x.Valid() && c.column.name == x.indexedColumn
    ensures Consult(Some(Compare(c, Equal, v)), [first, AsIndex(Blind(x))], true, Plan([], [])) == Ok(Plan([], []))
    ensures ConsultSkipping(Some(Compare(c, Equal, v)), [first, AsIndex(Blind(x))], Plan([], []))
         == Ok(Plan([HexIn(x.indexColumn, {BlindIndex.BlindValue(x, v)})], []))
  {
    SupportedFilterIsSwallowed(first, AsIndex<E>(Blind(x)), Compare(c, Equal, v), HexIn(x.indexColumn, {BlindIndex.BlindValue(x, v)}));
  }

  // ----- No matching row is lost -----

  ghost predicate AllTrue<E>(conditions: seq<Condition<E>>, row: Row<E>) {
    forall i | 0 <= i < |conditions| :: EvalSql(conditions[i], row) == True
  }

  lemma AllTrueAppend<E>(conditions: seq<Condition<E>>, c: Condition<E>, row: Row<E>)
    ensures AllTrue(conditions + [c], row) <==> AllTrue(conditions, row) && EvalSql(c, row) == True
  {
    var all := conditions + [c];
    assert all[|conditions|] == c;
    assert forall i | 0 <= i < |conditions| :: all[i] == conditions[i];
    if AllTrue(all, row) {
      forall i | 0 <= i < |conditions|
        ensures EvalSql(conditions[i], row) == True
      {
        assert EvalSql(all[i], row) == True;
      }
    }
  }

  predicate SplitKeeps<E>(f: Expr<E>, o: Support<E>) {
    Holds(KeepsS, f, o) && Holds(KeepsU, f, o)
  }

  /** Every split made while consulting the indices bounds its filter from above, and every fixed query keeps the row. */
  ghost predicate RunKeeps<E>(rest: Option<Expr<E>>, indices: seq<EncryptedIndex<E>>, phase: bool, row: Row<E>)
    decreases |indices|
  {
    indices == [] || rest.None? ||
    match indices[0].SupportIn(phase)
    case None => true
    case Some(o) =>
      var p := Split(rest.value, o);
      && SplitKeeps(rest.value, o)
      && (p.supported.Some? ==> QueryKeeps(indices[0], p.supported.value, row))
      && RunKeeps(p.unsupported, indices[1..], phase, row)
  }

  ghost predicate QueryKeeps<E>(x: EncryptedIndex<E>, f: Expr<E>, row: Row<E>) {
    var q := x.query(f);
    q.Ok? && q.value.Fixed? && RowTruth(f, row) == True ==> EvalSql(q.value.condition, row) == True
  }

  lemma SplitKeepsRow<E>(f: Expr<E>, o: Support<E>, row: Row<E>)
    requires SplitKeeps(f, o) && RowTruth(f, row) == True
    ensures Split(f, o).supported.Some? ==> RowTruth(Split(f, o).supported.value, row) == True
    ensures Split(f, o).unsupported.Some? ==> RowTruth(Split(f, o).unsupported.value, row) == True
  {
    BoundsAreTrue(f, o, g => LeafTruth(row, g));
  }

  lemma {:induction false} ConsultKeepsRow<E>(rest: Option<Expr<E>>, indices: seq<EncryptedIndex<E>>, phase: bool,
                                              plan: Plan<E>, row: Row<E>)
    requires RunKeeps(rest, indices, phase, row) && AllTrue(plan.forwarded, row)
    requires rest.Some? ==> RowTruth(rest.value, row) == True
    ensures Consult(rest, indices, phase, plan).Ok? ==> AllTrue(Consult(rest, indices, phase, plan).value.forwarded, row)
    decreases |indices|
  {
    if indices != [] && rest.Some? {
      match indices[0].SupportIn(phase)
      case None => ConsultKeepsRow(None, indices[1..], phase, plan, row);
      case Some(o) =>
        var p := Split(rest.value, o);
        SplitKeepsRow(rest.value, o, row);
        if p.supported.None? {
          ConsultKeepsRow(p.unsupported, indices[1..], phase, plan, row);
        } else if indices[0].query(p.supported.value).Ok? {
          ConsultKeepsRow(p.unsupported, indices[1..], phase, AddStrategy(plan, indices[0].query(p.supported.value).value), row);
        }
    }
  }

  lemma {:induction false} TableKeepsRow<E>(filters: seq<Expr<E>>, table: Support<E>, row: Row<E>)
    requires forall i | 0 <= i < |filters| :: SplitKeeps(filters[i], table) && RowTruth(filters[i], row) == True
    ensures ForwardAll(filters, table).Ok? ==> AllTrue(ForwardAll(filters, table).value, row)
    ensures Remainder(filters, table).Some? ==> RowTruth(Remainder(filters, table).value, row) == True
  {
    if filters != [] {
      var last := |filters| - 1;
      TableKeepsRow(filters[..last], table, row);
      SplitKeepsRow(filters[last], table, row);
      var p := Split(filters[last], table);
      if p.supported.Some? && Forward(p.supported.value).Ok? {
        ForwardKeepsMeaning(p.supported.value, row);
      }
      if Remainder(filters, table).Some? {
        RowTruthUnfolds(Remainder(filters, table).value, row);
      }
    }
  }

  /** A row satisfies a filter exactly when it satisfies both parts of a split that keeps the meaning. */
  lemma SplitIsExact<E>(f: Expr<E>, o: Support<E>, row: Row<E>)
    requires MeaningKept(f, o)
    ensures RowTruth(f, row) == True <==>
              && (Split(f, o).supported.Some? ==> RowTruth(Split(f, o).supported.value, row) == True)
              && (Split(f, o).unsupported.Some? ==> RowTruth(Split(f, o).unsupported.value, row) == True)
  {
    BoundsAreTrue(f, o, g => LeafTruth(row, g));
  }

  ghost predicate AllMatch<E>(filters: seq<Expr<E>>, row: Row<E>) {
    forall i | 0 <= i < |filters| :: RowTruth(filters[i], row) == True
  }

  ghost predicate Passes<E>(f: Option<Expr<E>>, row: Row<E>) {
    f.Some? ==> RowTruth(f.value, row) == True
  }

  lemma MatchLast<E>(filters: seq<Expr<E>>, row: Row<E>)
    requires filters != []
    ensures AllMatch(filters, row) <==> AllMatch(filters[..|filters| - 1], row) && RowTruth(filters[|filters| - 1], row) == True
  {
    var init := filters[..|filters| - 1];
    if AllMatch(init, row) && RowTruth(filters[|filters| - 1], row) == True {
      forall i | 0 <= i < |filters|
        ensures RowTruth(filters[i], row) == True
      {
        if i < |init| { assert filters[i] == init[i]; }
      }
    }
  }

  lemma PassesBoth<E>(a: Option<Expr<E>>, b: Option<Expr<E>>, row: Row<E>)
    ensures Passes(Recombine(a, b, Conjunction), row) <==> Passes(a, row) && Passes(b, row)
  {
    if a.Some? && b.Some? {
      RowTruthUnfolds(And(a.value, b.value), row);
    }
  }

  lemma ForwardLast<E>(filters: seq<Expr<E>>, table: Support<E>, row: Row<E>)
    requires filters != [] && ForwardAll(filters, table).Ok?
    ensures var init := filters[..|filters| - 1];
            && ForwardAll(init, table).Ok?
            && (AllTrue(ForwardAll(filters, table).value, row) <==>
                  AllTrue(ForwardAll(init, table).value, row) && Passes(Split(filters[|filters| - 1], table).supported, row))
  {
    var p := Split(filters[|filters| - 1], table);
    if p.supported.Some? {
      ForwardKeepsMeaning(p.supported.value, row);
      AllTrueAppend(ForwardAll(filters[..|filters| - 1], table).value, Forward(p.supported.value).value, row);
    }
  }

  /** What the table is sent and what remains for the proxy are, together, the filters and nothing more. */
  lemma {:induction false} TableSplitIsExact<E>(filters: seq<Expr<E>>, table: Support<E>, row: Row<E>)
    requires forall i | 0 <= i < |filters| :: MeaningKept(filters[i], table)
    requires ForwardAll(filters, table).Ok?
    ensures AllMatch(filters, row) <==> AllTrue(ForwardAll(filters, table).value, row) && Passes(Remainder(filters, table), row)
  {
    if filters != [] {
      var last := |filters| - 1;
      MatchLast(filters, row);
      ForwardLast(filters, table, row);
      PassesBoth(Remainder(filters[..last], table), Split(filters[last], table).unsupported, row);
      SplitIsExact(filters[last], table, row);
      TableSplitIsExact(filters[..last], table, row);
    }
  }

  /** A row matching every filter matches every condition that the whole resolution forwards. */
  lemma ResolveKeepsRow<E>(filters: seq<Expr<E>>, table: Support<E>, indices: seq<EncryptedIndex<E>>, row: Row<E>)
    requires forall i | 0 <= i < |filters| :: SplitKeeps(filters[i], table) && RowTruth(filters[i], row) == True
    requires RunKeeps(OptimizeOption(Remainder(filters, table)), indices, false, row)
    ensures Resolve(filters, table, indices).Ok? ==> AllTrue(Resolve(filters, table, indices).value.forwarded, row)
  {
    TableKeepsRow(filters, table, row);
    var rest := Remainder(filters, table);
    if rest.Some? {
      OptimizeWeakens(rest.value, row);
    }
    if ForwardAll(filters, table).Ok? {
      ConsultKeepsRow(OptimizeOption(rest), indices, false, Plan(ForwardAll(filters, table).value, []), row);
    }
  }

  // ----- What was taken is sent -----

  lemma {:induction false} SupportedPartsAreForwarded<E>(filters: seq<Expr<E>>, table: Support<E>, row: Row<E>, i: nat)
    requires ForwardAll(filters, table).Ok? && AllTrue(ForwardAll(filters, table).value, row) && i < |filters|
    ensures Passes(Split(filters[i], table).supported, row)
  {
    ForwardLast(filters, table, row);
    if i < |filters| - 1 {
      SupportedPartsAreForwarded(filters[..|filters| - 1], table, row, i);
    }
  }

  lemma PrefixIsTrue<E>(some: seq<Condition<E>>, all: seq<Condition<E>>, row: Row<E>)
    requires some <= all && AllTrue(all, row)
    ensures AllTrue(some, row)
  {
    forall i | 0 <= i < |some|
      ensures EvalSql(some[i], row) == True
    {
      assert some[i] == all[i];
    }
  }

  /** A row that satisfies what is sent satisfies all that the table took, and so every filter that is not checked again. */
  lemma SentConditionsSuffice<E>(filters: seq<Expr<E>>, table: Support<E>, indices: seq<EncryptedIndex<E>>, row: Row<E>, i: nat)
    requires Resolve(filters, table, indices).Ok? && AllTrue(Resolve(filters, table, indices).value.forwarded, row) && i < |filters|
    ensures Split(filters[i], table).supported.Some? ==> RowTruth(Split(filters[i], table).supported.value, row) == True
    ensures Split(filters[i], table) == Parts(Some(filters[i]), None) ==> RowTruth(filters[i], row) == True
  {
    var forwarded := ForwardAll(filters, table).value;
    ConsultOnlyAdds(OptimizeOption(Remainder(filters, table)), indices, false, Plan(forwarded, []));
    PrefixIsTrue(forwarded, Resolve(filters, table, indices).value.forwarded, row);
    SupportedPartsAreForwarded(filters, table, row, i);
  }

  /** Every fixed query made while consulting the indices holds of the row. */
  ghost predicate QueriesHold<E>(rest: Option<Expr<E>>, indices: seq<EncryptedIndex<E>>, phase: bool, row: Row<E>)
    decreases |indices|
  {
    indices == [] || rest.None? ||
    match indices[0].SupportIn(phase)
    case None => true
    case Some(o) =>
      var p := Split(rest.value, o);
      && (p.supported.Some? && indices[0].query(p.supported.value).Ok? && indices[0].query(p.supported.value).value.Fixed? ==>
            EvalSql(indices[0].query(p.supported.value).value.condition, row) == True)
      && QueriesHold(p.unsupported, indices[1..], phase, row)
  }

  /** What an index was asked for is sent: a row satisfying the plan satisfies every query. */
  lemma {:induction false} QueriesAreSent<E>(rest: Option<Expr<E>>, indices: seq<EncryptedIndex<E>>, phase: bool, plan: Plan<E>, row: Row<E>)
    requires Consult(rest, indices, phase, plan).Ok? && AllTrue(Consult(rest, indices, phase, plan).value.forwarded, row)
    ensures QueriesHold(rest, indices, phase, row)
    decreases |indices|
  {
    if indices != [] && rest.Some? && indices[0].SupportIn(phase).Some? {
      var p := Split(rest.value, indices[0].SupportIn(phase).value);
      if p.supported.None? {
        QueriesAreSent(p.unsupported, indices[1..], phase, plan, row);
      } else {
        var s := indices[0].query(p.supported.value).value;
        var more := AddStrategy(plan, s);
        QueriesAreSent(p.unsupported, indices[1..], phase, more, row);
        ConsultOnlyAdds(p.unsupported, indices[1..], phase, more);
        PrefixIsTrue(more.forwarded, Consult(rest, indices, phase, plan).value.forwarded, row);
        if s.Fixed? { AllTrueAppend(plan.forwarded, s.condition, row); }
      }
    }
  }

  // ----- What the first index is handed -----

  /** The filters joined by AND, from the left. */
  function Conjoin<E>(filters: seq<Expr<E>>): Expr<E>
    requires filters != []
  {
    var last := |filters| - 1;
    if last == 0 then filters[0] else And(Conjoin(filters[..last]), filters[last])
  }

  ghost predicate TakesNothing<E>(filters: seq<Expr<E>>, table: Support<E>) {
    forall i | 0 <= i < |filters| :: Split(filters[i], table) == Parts(None, Some(filters[i]))
  }

  lemma {:induction false} AllRemains<E>(filters: seq<Expr<E>>, table: Support<E>)
    requires filters != [] && TakesNothing(filters, table)
    ensures ForwardAll(filters, table) == Ok([]) && Remainder(filters, table) == Some(Conjoin(filters))
  {
    var init := filters[..|filters| - 1];
    if init != [] {
      AllRemains(init, table);
    }
  }

  /** Filters the table takes nothing of reach the first index as one conjunction with its bounds merged; accepted, its answer is the plan. */
  lemma FirstIndexIsHandedAll<E>(filters: seq<Expr<E>>, table: Support<E>, x: EncryptedIndex<E>, more: seq<EncryptedIndex<E>>)
    requires filters != [] && TakesNothing(filters, table) && x.logical.isSupported(Optimize(Conjoin(filters)))
    ensures var r, s := Resolve(filters, table, [x] + more), x.query(Optimize(Conjoin(filters)));
            match s
            case Err(e) => r == Err(e)
            case Ok(Fixed(c)) => r == Ok(Plan([c], []))
            case Ok(Dynamic(f)) => r == Ok(Plan([], [f]))
  {
    AllRemains(filters, table);
    var f, none: Plan<E> := Optimize(Conjoin(filters)), Plan([], []);
    ConsultHead(Some(f), x, more, none);
    assert Split(f, x.logical) == Parts(Some(f), None);
    match x.query(f)
    case Err(_) =>
    case Ok(Fixed(c)) =>
      assert [] + [c] == [c];
      assert AddStrategy(none, Fixed(c)) == Plan([c], []);
    case Ok(Dynamic(g)) =>
      assert [] + [g] == [g];
      assert AddStrategy(none, Dynamic(g)) == Plan([], [g]);
  }

  // ----- Tables with blind and range indices -----

  datatype TableIndex =
    | Blind(blind: BlindIndex.Index)
    | Range(range: RangeIndex.Index, domain: RangeIndex.Domain)
  {
    ghost predicate Valid() {
      match this
      case Blind(x) => x.Valid()
      case Range(x, d) => x.Valid() && d.FitsIndex(x)
    }

    ghost predicate Stores<E>(row: Row<E>)
      requires Valid()
    {
      match this
      case Blind(x) => BlindIndex.Stored(x, row)
      case Range(x, d) => RangeIndex.Stored(x, d, row)
    }

    /**
      The index keeps this row for the filter: comparisons are on bare columns, no literal is lost on
      the row by a blind index, and no strict comparison is off a bucket edge of a range index.
     */
    ghost predicate Suits<E>(f: Expr<E>, row: Row<E>)
      requires Valid()
    {
      match this
      case Blind(x) => BlindIndex.Uncast(f) && BlindIndex.NoneLost(x, f, row.cell(x.indexedColumn))
      case Range(x, d) => RangeIndex.KeepsBuckets(x, d, Optimize(f))
    }

    /** The index can translate the filter. */
    predicate Translates<E>(f: Expr<E>) {
      Range? ==> RangeIndex.NotFree(f)
    }
  }

  function AsFixed<E>(r: Result<Condition<E>>): Result<Strategy<E>> {
    match r
    case Ok(c) => Ok(Fixed(c))
    case Err(e) => Err(e)
  }

  ghost function AsIndex<E>(t: TableIndex): EncryptedIndex<E>
    requires t.Valid()
  {
    match t
    case Blind(x) =>
      EncryptedIndex(BlindIndex.SupportOf(x), Some(BlindIndex.SupportOf(x)), f => AsFixed(BlindIndex.Query(x, f)))
    case Range(x, _) =>
      EncryptedIndex(RangeIndex.SupportOf(x), Some(RangeIndex.SupportOf(x)), f => AsFixed(RangeIndex.Query(x, f)))
  }

  ghost function AsIndices<E>(ts: seq<TableIndex>): (r: seq<EncryptedIndex<E>>)
    requires forall i | 0 <= i < |ts| :: ts[i].Valid()
    ensures |r| == |ts|
  {
    if ts == [] then [] else [AsIndex(ts[0])] + AsIndices(ts[1..])
  }

  lemma TableQueryKeeps<E>(t: TableIndex, f: Expr<E>, row: Row<E>)
    requires t.Valid() && t.Stores(row) && t.Suits(f, row)
    ensures QueryKeeps(AsIndex(t), f, row)
  {
    if RowTruth(f, row) == True {
      match t
      case Blind(x) =>
        if BlindIndex.Query(x, f).Ok? { BlindIndex.QueryKeepsRows(x, f, row); }
      case Range(x, d) =>
        if RangeIndex.Query(x, f).Ok? { RangeIndex.QueryKeepsRows(x, d, f, row); }
    }
  }

  ghost predicate AllValid(ts: seq<TableIndex>) {
    forall i | 0 <= i < |ts| :: ts[i].Valid()
  }

  /** Each split made for the table indices, in turn, keeps its upper bounds. */
  ghost predicate SplitsKeep<E>(rest: Option<Expr<E>>, ts: seq<TableIndex>)
    requires AllValid(ts)
    decreases |ts|
  {
    ts == [] || rest.None? ||
    var o := AsIndex<E>(ts[0]).logical;
    SplitKeeps(rest.value, o) && SplitsKeep(Split(rest.value, o).unsupported, ts[1..])
  }

  /** Each table index, in turn, splits off a part that suits it. */
  ghost predicate SuitsAll<E>(rest: Option<Expr<E>>, ts: seq<TableIndex>, row: Row<E>)
    requires AllValid(ts)
    decreases |ts|
  {
    ts == [] || rest.None? ||
    var p := Split(rest.value, AsIndex<E>(ts[0]).logical);
    (p.supported.Some? ==> ts[0].Suits(p.supported.value, row)) && SuitsAll(p.unsupported, ts[1..], row)
  }

  /** Each table index, in turn, can translate the part it splits off. */
  ghost predicate TranslatesAll<E>(rest: Option<Expr<E>>, ts: seq<TableIndex>)
    requires AllValid(ts)
    decreases |ts|
  {
    ts == [] || rest.None? ||
    var p := Split(rest.value, AsIndex<E>(ts[0]).logical);
    (p.supported.Some? ==> ts[0].Translates(p.supported.value)) && TranslatesAll(p.unsupported, ts[1..])
  }

  lemma AsIndicesCons<E>(ts: seq<TableIndex>)
    requires AllValid(ts) && ts != []
    ensures AsIndices<E>(ts) == [AsIndex<E>(ts[0])] + AsIndices<E>(ts[1..])
  {
  }

  /** One turn of the logical loop. */
  lemma ConsultHead<E>(rest: Option<Expr<E>>, x: EncryptedIndex<E>, tail: seq<EncryptedIndex<E>>, plan: Plan<E>)
    requires rest.Some?
    ensures var p := Split(rest.value, x.logical);
            Consult(rest, [x] + tail, false, plan)
            == if p.supported.None? then Consult(p.unsupported, tail, false, plan)
               else if x.query(p.supported.value).Err? then Err(x.query(p.supported.value).error)
               else Consult(p.unsupported, tail, false, AddStrategy(plan, x.query(p.supported.value).value))
  {
    assert ([x] + tail)[0] == x && ([x] + tail)[1..] == tail;
  }

  lemma RunHead<E>(rest: Option<Expr<E>>, x: EncryptedIndex<E>, tail: seq<EncryptedIndex<E>>, row: Row<E>)
    requires rest.Some? && SplitKeeps(rest.value, x.logical)
    requires var p := Split(rest.value, x.logical);
             (p.supported.Some? ==> QueryKeeps(x, p.supported.value, row)) && RunKeeps(p.unsupported, tail, false, row)
    ensures RunKeeps(rest, [x] + tail, false, row)
  {
    assert ([x] + tail)[0] == x && ([x] + tail)[1..] == tail;
  }

  lemma {:induction false} SuitableRunKeeps<E>(rest: Option<Expr<E>>, ts: seq<TableIndex>, row: Row<E>)
    requires forall i | 0 <= i < |ts| :: ts[i].Valid() && ts[i].Stores(row)
    requires SplitsKeep(rest, ts) && SuitsAll(rest, ts, row)
    ensures RunKeeps(rest, AsIndices(ts), false, row)
    decreases |ts|
  {
    if ts != [] && rest.Some? {
      var x := AsIndex<E>(ts[0]);
      var p := Split(rest.value, x.logical);
      if p.supported.Some? { TableQueryKeeps(ts[0], p.supported.value, row); }
      SuitableRunKeeps(p.unsupported, ts[1..], row);
      RunHead(rest, x, AsIndices(ts[1..]), row);
      AsIndicesCons<E>(ts);
    }
  }

  lemma TableQueryExactly<E>(t: TableIndex, f: Expr<E>)
    requires t.Valid() && Split(f, AsIndex<E>(t).logical).supported.Some?
    ensures var s := Split(f, AsIndex<E>(t).logical).supported.value;
            AsIndex<E>(t).query(s).Ok? <==> t.Translates(s)
  {
    match t
    case Blind(x) => BlindIndex.QueryNeverFails(x, f);
    case Range(x, _) => RangeIndex.QueryFailsExactlyOnNot(x, f);
  }

  /** Consulting blind and range indices succeeds exactly when no range index is handed a NOT. */
  lemma {:induction false} ConsultSucceedsExactly<E>(rest: Option<Expr<E>>, ts: seq<TableIndex>, plan: Plan<E>)
    requires AllValid(ts)
    ensures Consult(rest, AsIndices(ts), false, plan).Ok? <==> TranslatesAll(rest, ts)
    decreases |ts|
  {
    if ts != [] && rest.Some? {
      var x, tail := AsIndex<E>(ts[0]), AsIndices<E>(ts[1..]);
      AsIndicesCons<E>(ts);
      ConsultHead(rest, x, tail, plan);
      var p := Split(rest.value, x.logical);
      if p.supported.None? {
        ConsultSucceedsExactly(p.unsupported, ts[1..], plan);
      } else {
        TableQueryExactly(ts[0], rest.value);
        if x.query(p.supported.value).Ok? {
          ConsultSucceedsExactly(p.unsupported, ts[1..], AddStrategy(plan, x.query(p.supported.value).value));
        }
      }
    }
  }

  /**
    Any filters on a table with blind and range indices: once forwarding succeeds, the resolution
    succeeds exactly when no range index is handed a NOT; and if every split on the way keeps the row
    and suits its index, a stored row matching all filters satisfies every condition sent to the server.
   */
  lemma IndexedFiltersKeepRows<E>(filters: seq<Expr<E>>, table: Support<E>, ts: seq<TableIndex>, row: Row<E>)
    requires forall i | 0 <= i < |ts| :: ts[i].Valid() && ts[i].Stores(row)
    requires ForwardAll(filters, table).Ok?
    ensures Resolve(filters, table, AsIndices(ts)).Ok? <==> TranslatesAll(OptimizeOption(Remainder(filters, table)), ts)
    ensures Resolve(filters, table, AsIndices(ts)).Ok? && AllMatch(filters, row) && AllSplitsKeep(filters, table, ts)
            && SuitsAll(OptimizeOption(Remainder(filters, table)), ts, row) ==>
              AllTrue(Resolve(filters, table, AsIndices(ts)).value.forwarded, row)
  {
    var rest := OptimizeOption(Remainder(filters, table));
    ConsultSucceedsExactly(rest, ts, Plan(ForwardAll(filters, table).value, []));
    if AllMatch(filters, row) && AllSplitsKeep(filters, table, ts) && SuitsAll(rest, ts, row) {
      SuitableRunKeeps(rest, ts, row);
      ResolveKeepsRow(filters, table, AsIndices(ts), row);
    }
  }

  /** Every split made for the table and then for its indices keeps its upper bounds. */
  ghost predicate AllSplitsKeep<E>(filters: seq<Expr<E>>, table: Support<E>, ts: seq<TableIndex>)
    requires AllValid(ts)
  {
    && (forall i | 0 <= i < |filters| :: SplitKeeps(filters[i], table))
    && SplitsKeep(OptimizeOption(Remainder(filters, table)), ts)
  }

  // ----- Conjunctions -----

  /** A conjunction of leaves. */
  predicate Conjunctive<E>(f: Expr<E>) {
    if f.And? then Conjunctive(f.left) && Conjunctive(f.right) else IsLeaf(f)
  }

  lemma {:induction false} ConjunctiveSplits<E>(f: Expr<E>, o: Support<E>)
    requires Conjunctive(f)
    ensures SplitKeeps(f, o)
    ensures Split(f, o).supported.Some? ==> Conjunctive(Split(f, o).supported.value)
    ensures Split(f, o).unsupported.Some? ==> Conjunctive(Split(f, o).unsupported.value)
  {
    if f.And? {
      ConjunctiveSplits(f.left, o);
      ConjunctiveSplits(f.right, o);
    }
  }

  lemma {:induction false} ConjunctiveRemainder<E>(filters: seq<Expr<E>>, table: Support<E>)
    requires forall i | 0 <= i < |filters| :: Conjunctive(filters[i])
    ensures Remainder(filters, table).Some? ==> Conjunctive(Remainder(filters, table).value)
  {
    if filters != [] {
      var last := |filters| - 1;
      ConjunctiveRemainder(filters[..last], table);
      ConjunctiveSplits(filters[last], table);
    }
  }

  lemma {:induction false} ConjunctiveOptimized<E>(f: Expr<E>)
    requires Conjunctive(f)
    ensures Conjunctive(Optimize(f)) && RangeIndex.NotFree(f)
  {
    if f.And? {
      ConjunctiveOptimized(f.left);
      ConjunctiveOptimized(f.right);
    }
  }

  lemma {:induction false} ConjunctiveRun<E>(rest: Option<Expr<E>>, ts: seq<TableIndex>)
    requires AllValid(ts) && (rest.Some? ==> Conjunctive(rest.value))
    ensures TranslatesAll(rest, ts) && SplitsKeep(rest, ts)
    decreases |ts|
  {
    if ts != [] && rest.Some? {
      var o := AsIndex<E>(ts[0]).logical;
      var p := Split(rest.value, o);
      ConjunctiveSplits(rest.value, o);
      if p.supported.Some? { ConjunctiveOptimized(p.supported.value); }
      ConjunctiveRun(p.unsupported, ts[1..]);
    }
  }

  lemma ConjunctiveSplitsKeep<E>(filters: seq<Expr<E>>, table: Support<E>, ts: seq<TableIndex>)
    requires AllValid(ts) && forall i | 0 <= i < |filters| :: Conjunctive(filters[i])
    ensures AllSplitsKeep(filters, table, ts) && TranslatesAll(OptimizeOption(Remainder(filters, table)), ts)
  {
    forall i | 0 <= i < |filters|
      ensures SplitKeeps(filters[i], table)
    {
      ConjunctiveSplits(filters[i], table);
    }
    ConjunctiveRemainder(filters, table);
    var rest := Remainder(filters, table);
    if rest.Some? { ConjunctiveOptimized(rest.value); }
    ConjunctiveRun(OptimizeOption(rest), ts);
  }

  /** Conjunctions meet all conditions on splits: once forwarding succeeds, nothing fails and suited indices lose no row. */
  lemma ConjunctiveFiltersKeepRows<E>(filters: seq<Expr<E>>, table: Support<E>, ts: seq<TableIndex>, row: Row<E>)
    requires forall i | 0 <= i < |ts| :: ts[i].Valid() && ts[i].Stores(row)
    requires forall i | 0 <= i < |filters| :: Conjunctive(filters[i])
    requires ForwardAll(filters, table).Ok?
    ensures Resolve(filters, table, AsIndices(ts)).Ok?
    ensures AllMatch(filters, row) && SuitsAll(OptimizeOption(Remainder(filters, table)), ts, row) ==>
              AllTrue(Resolve(filters, table, AsIndices(ts)).value.forwarded, row)
  {
    ConjunctiveSplitsKeep(filters, table, ts);
    IndexedFiltersKeepRows(filters, table, ts, row);
  }
}
