/** The loops that run a group's children and build its description, as
    written in the package: they are proved to compute exactly the folds the
    step semantics uses. */
module Runners {
  import opened Seqs
  import opened Signal
  import opened Actions
  import GoStrings

  /** Appending one more run to a list extends its flattened calls. */
  lemma CallsSnoc(es: seq<Exec>, i: nat)
    requires i < |es|
    ensures Flatten(Calls(es[..i + 1])) == Flatten(Calls(es[..i])) + es[i].calls
  {
    assert Calls(es[..i + 1]) == Calls(es[..i]) + [es[i].calls];
    FlattenAppend(Calls(es[..i]), [es[i].calls]);
    assert Flatten([es[i].calls]) == es[i].calls by {
      assert [es[i].calls][1..] == [];
    }
  }

  /** One more child merged into the join of the previous ones. */
  lemma JoinFoldSnoc(es: seq<Exec>, i: nat)
    requires i < |es|
    ensures JoinFold(es[..i + 1])
            == Exec(JoinResultAndErr(JoinFold(es[..i]).outcome, es[i].outcome),
                    JoinFold(es[..i]).calls + es[i].calls)
  {
    var xs := Outcomes(es[..i + 1]);
    assert xs[..|xs| - 1] == Outcomes(es[..i]);
    JoinAllLast(xs);
    CallsSnoc(es, i);
  }

  /** runSequentialActions: run the children in order and return the first
      outcome that needs a requeue, else NoRequeue. */
  method RunSequentialActions(actions: seq<Step>, ctx: Ctx, impl: Impl) returns (o: Outcome, calls: seq<nat>)
    ensures Exec(o, calls) == SequentialFold(RunAll(actions, ctx, impl))
  {
    ghost var es := RunAll(actions, ctx, impl);
    RunAllAt(actions, ctx, impl);
    SequentialFoldStops(es);
    calls := [];
    var i := 0;
    while i < |actions|
      invariant 0 <= i <= |actions|
      invariant forall j :: 0 <= j < i ==> !Requeues(es[j])
      invariant calls == Flatten(Calls(es[..i]))
    {
      var e := Run(actions[i], ctx, impl);
      CallsSnoc(es, i);
      if NeedsRequeue(e.outcome.result, e.outcome.err) {
        assert FirstRequeue(es) == i;
        return e.outcome, calls + e.calls;
      }
      calls := calls + e.calls;
      i := i + 1;
    }
    assert es[..i] == es;
    assert FirstRequeue(es) == |es|;
    o := NoRequeue();
  }

  /** runJoinActions: run every child in order, merging each outcome into
      the accumulator; nothing stops the loop early. */
  method RunJoinActions(actions: seq<Step>, ctx: Ctx, impl: Impl) returns (o: Outcome, calls: seq<nat>)
    ensures Exec(o, calls) == JoinFold(RunAll(actions, ctx, impl))
  {
    ghost var es := RunAll(actions, ctx, impl);
    RunAllAt(actions, ctx, impl);
    o, calls := NoRequeue(), [];
    for i := 0 to |actions|
      invariant Exec(o, calls) == JoinFold(es[..i])
    {
      var e := Run(actions[i], ctx, impl);
      JoinFoldSnoc(es, i);
      o := JoinResultAndErr(o, e.outcome);
      calls := calls + e.calls;
    }
    assert es[..|actions|] == es;
  }

  /** The goroutines of runJoinActionsInParallel: child `i` writes its result
      into lresults[i] and its error into lerrs[i]. */
  method FillSlots(actions: seq<Step>, ctx: Ctx, impl: Impl)
    returns (lresults: array<Result>, lerrs: array<Error>, lcalls: array<seq<nat>>)
    ensures lresults.Length == lerrs.Length == lcalls.Length == |actions|
    ensures forall j :: 0 <= j < |actions| ==>
              && Outcome(lresults[j], lerrs[j]) == Run(actions[j], ctx, impl).outcome
              && lcalls[j] == Run(actions[j], ctx, impl).calls
  {
    lresults := new Result[|actions|](_ => EmptyResult);
    lerrs := new Error[|actions|](_ => Nil);
    lcalls := new seq<nat>[|actions|](_ => []);
    for i := 0 to |actions|
      invariant forall j :: 0 <= j < i ==>
                  && Outcome(lresults[j], lerrs[j]) == Run(actions[j], ctx, impl).outcome
                  && lcalls[j] == Run(actions[j], ctx, impl).calls
    {
      var e := Run(actions[i], ctx, impl);
      lresults[i] := e.outcome.result;
      lerrs[i] := e.outcome.err;
      lcalls[i] := e.calls;
    }
  }

  /** The merge after the goroutines: the slots are joined in index order. */
  method MergeSlots(lresults: array<Result>, lerrs: array<Error>, lcalls: array<seq<nat>>, ghost es: seq<Exec>)
    returns (o: Outcome, calls: seq<nat>)
    requires lresults.Length == lerrs.Length == lcalls.Length == |es|
    requires forall j :: 0 <= j < |es| ==> Outcome(lresults[j], lerrs[j]) == es[j].outcome && lcalls[j] == es[j].calls
    ensures Exec(o, calls) == JoinFold(es)
  {
    o, calls := NoRequeue(), [];
    for i := 0 to lresults.Length
      invariant Exec(o, calls) == JoinFold(es[..i])
    {
      JoinFoldSnoc(es, i);
      o := JoinResultAndErr(o, Outcome(lresults[i], lerrs[i]));
      calls := calls + lcalls[i];
    }
    assert es[..|es|] == es;
  }

  /** runJoinActionsInParallel: every child fills its own slot, then the slots
      are merged in index order. */
  method RunJoinActionsInParallel(actions: seq<Step>, ctx: Ctx, impl: Impl) returns (o: Outcome, calls: seq<nat>)
    ensures Exec(o, calls) == JoinFold(RunAll(actions, ctx, impl))
  {
    ghost var es := RunAll(actions, ctx, impl);
    RunAllAt(actions, ctx, impl);
    var lresults, lerrs, lcalls := FillSlots(actions, ctx, impl);
    o, calls := MergeSlots(lresults, lerrs, lcalls, es);
  }

  /** describeGroup: the head, "(", every description but the last followed
      by ", ", the last one and ")". An empty list panics in the source. */
  method DescribeGroup(head: string, actions: seq<Step>, show: int -> string) returns (r: string)
    requires |actions| > 0
    ensures r == GroupText(head, DescribeAll(actions, show))
  {
    var ds := DescribeAll(actions, show);
    r := WriteGroup(head, ds);
  }

  /** The buffer loop of describeGroup, over the children's descriptions. */
  method WriteGroup(head: string, ds: seq<string>) returns (r: string)
    requires |ds| > 0
    ensures r == GroupText(head, ds)
  {
    var buf := head + "(";
    for i := 0 to |ds| - 1
      invariant buf == head + "(" + GoStrings.Terminated(ds[..i], ", ")
    {
      GoStrings.TerminatedPrefix(ds, i, ", ");
      buf := buf + ds[i] + ", ";
    }
    GoStrings.TerminatedJoin(ds, ", ");
    r := buf + ds[|ds| - 1] + ")";
  }
}
