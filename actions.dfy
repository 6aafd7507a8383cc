/** The reconcile-action algebra of package ctrlkit: a step is a tree of
    leaves (WrapAction), Nop, groups (Sequential, Join, JoinOrdered,
    JoinInParallel), Parallel and Timeout wrappers. Running a step is a
    function of the context and of what each leaf function returns. */
module Actions {
  import opened Seqs
  import opened Signal
  import GoStrings

  /** Which constructor built a group. */
  datatype Kind = SequentialGroup | JoinGroup | JoinOrderedGroup | JoinInParallelGroup

  /** A ReconcileAction. A leaf is an actionWrap around the function numbered
      `fn`; the groups are the actionWraps built by the group constructors. */
  datatype Step =
    | Leaf(description: string, fn: nat)
    | NopStep
    | Group(kind: Kind, children: seq<Step>)
    | Par(inner: Step)
    | TimeoutStep(timeout: int, inner: Step)

  /** The context a step runs under: the caller's (an uninterpreted token), narrowed
      by every enclosing Timeout. */
  datatype Ctx = Given(token: nat) | WithTimeout(parent: Ctx, timeout: int)

  /** What each leaf function returns, given the context it is called with. */
  type Impl = (Ctx, nat) -> Outcome

  /** What running a step did: its outcome and the leaf functions it called,
      in call order. */
  datatype Exec = Exec(outcome: Outcome, calls: seq<nat>)

  // ---------------------------------------------------------------------------
  // Running a step

  /** ReconcileAction.Run. Parallel runs its inner step to completion and
      returns its outcome; Timeout runs it under a narrowed context. */
  function Run(s: Step, ctx: Ctx, impl: Impl): Exec
    decreases s
  {
    match s
    case Leaf(_, fn) => Exec(impl(ctx, fn), [fn])
    case NopStep => Exec(NoRequeue(), [])
    case Group(kind, children) =>
      var es := RunAll(children, ctx, impl);
      if kind == SequentialGroup then SequentialFold(es) else JoinFold(es)
    case Par(inner) => Run(inner, ctx, impl)
    case TimeoutStep(d, inner) => Run(inner, WithTimeout(ctx, d), impl)
  }

  /** Running each child on its own. */
  function RunAll(cs: seq<Step>, ctx: Ctx, impl: Impl): (es: seq<Exec>)
    decreases cs
    ensures |es| == |cs|
  {
    seq(|cs|, i requires 0 <= i < |cs| => Run(cs[i], ctx, impl))
  }

  lemma RunAllAt(cs: seq<Step>, ctx: Ctx, impl: Impl)
    ensures forall i :: 0 <= i < |cs| ==> RunAll(cs, ctx, impl)[i] == Run(cs[i], ctx, impl)
  {
  }

  function Outcomes(es: seq<Exec>): seq<Outcome> {
    Map((e: Exec) => e.outcome, es)
  }

  function Calls(es: seq<Exec>): seq<seq<nat>> {
    Map((e: Exec) => e.calls, es)
  }

  predicate Requeues(e: Exec) {
    NeedsRequeue(e.outcome.result, e.outcome.err)
  }

  /** The index of the first child that needs a requeue, or |es| if none does. */
  function FirstRequeue(es: seq<Exec>): (k: nat)
    ensures k <= |es|
    ensures forall j :: 0 <= j < k ==> !Requeues(es[j])
    ensures k < |es| ==> Requeues(es[k])
  {
    if es == [] then 0
    else if Requeues(es[0]) then 0
    else 1 + FirstRequeue(es[1..])
  }

  /** The loop of runSequentialActions over the children's runs: stop at the
      first child that needs a requeue and return its outcome; otherwise
      NoRequeue. Only the children up to the stopping one are run. */
  function SequentialFold(es: seq<Exec>): Exec {
    if es == [] then Exec(NoRequeue(), [])
    else if Requeues(es[0]) then es[0]
    else
      var rest := SequentialFold(es[1..]);
      Exec(rest.outcome, es[0].calls + rest.calls)
  }

  /** Sequential's fold returns the outcome of the first child that needs a
      requeue, having run exactly the children up to it; otherwise it runs
      them all and returns NoRequeue. */
  lemma {:induction false} SequentialFoldStops(es: seq<Exec>)
    ensures var r, k := SequentialFold(es), FirstRequeue(es);
            && (k < |es| ==> r == Exec(es[k].outcome, Flatten(Calls(es[..k + 1]))))
            && (k == |es| ==> r == Exec(NoRequeue(), Flatten(Calls(es))))
  {
    if es == [] {
    } else if Requeues(es[0]) {
      FlattenCallsCons(es, 1);
      assert es[1..][..0] == [];
    } else {
      SequentialFoldStops(es[1..]);
      var k := FirstRequeue(es);
      assert k == 1 + FirstRequeue(es[1..]);
      if k < |es| {
        FlattenCallsCons(es, k + 1);
      } else {
        FlattenCallsCons(es, |es|);
        assert es[..|es|] == es && es[1..][..|es| - 1] == es[1..];
      }
    }
  }

  /** The calls of the first n runs are the first run's calls followed by
      those of the next n - 1. */
  lemma FlattenCallsCons(es: seq<Exec>, n: nat)
    requires 0 < n <= |es|
    ensures Flatten(Calls(es[..n])) == es[0].calls + Flatten(Calls(es[1..][..n - 1]))
  {
    var c := Calls(es[..n]);
    assert c[0] == es[0].calls;
    assert c[1..] == Calls(es[1..][..n - 1]);
  }

  /** Sequential's fold needs a requeue iff one of the children does. */
  lemma SequentialFoldRequeues(es: seq<Exec>)
    ensures Requeues(SequentialFold(es)) <==> exists i :: 0 <= i < |es| && Requeues(es[i])
  {
    SequentialFoldStops(es);
    var k := FirstRequeue(es);
    if k == |es| {
      assert Requeues(SequentialFold(es)) == false;
    }
  }

  /** runJoinActions over the children's runs: every child is run, in order,
      and the outcomes are merged by joinResultAndErr. */
  function JoinFold(es: seq<Exec>): Exec {
    Exec(JoinAll(Outcomes(es)), Flatten(Calls(es)))
  }

  // ---------------------------------------------------------------------------
  // Describing a step

  function Head(kind: Kind): string {
    match kind
    case SequentialGroup => "Sequential"
    case JoinGroup => "Join"
    case JoinOrderedGroup => "JoinOrdered"
    case JoinInParallelGroup => "JoinInParallel"
  }

  /** The text describeGroup builds: the head, then the descriptions separated
      by ", " in parentheses. */
  function GroupText(head: string, descs: seq<string>): string {
    head + "(" + GoStrings.Join(descs, ", ") + ")"
  }

  /** ReconcileAction.Description; `show` renders a time.Duration. */
  function Description(s: Step, show: int -> string): string
    decreases s
  {
    match s
    case Leaf(d, _) => d
    case NopStep => "Nop"
    case Group(kind, children) => GroupText(Head(kind), DescribeAll(children, show))
    case Par(inner) => "Parallel(" + Description(inner, show) + ")"
    case TimeoutStep(d, inner) => "Timeout(" + Description(inner, show) + ", " + show(d) + ")"
  }

  function DescribeAll(cs: seq<Step>, show: int -> string): (ds: seq<string>)
    decreases cs
    ensures |ds| == |cs|
  {
    seq(|cs|, i requires 0 <= i < |cs| => Description(cs[i], show))
  }

  /** With one child the group text is the head around that child's text. */
  lemma GroupTextOne(head: string, d: string)
    ensures GroupText(head, [d]) == head + "(" + d + ")"
  {
  }

  /** One more child adds ", " and its text before the closing parenthesis;
      so n children give n - 1 separators. */
  lemma {:induction false} GroupTextLength(head: string, descs: seq<string>)
    requires |descs| > 0
    ensures |GroupText(head, descs)| == |head| + 2 + TotalLength(descs) + 2 * (|descs| - 1)
    decreases |descs|
  {
    if |descs| > 1 {
      GroupTextLength(head, descs[1..]);
      assert descs == [descs[0]] + descs[1..];
    }
  }

  function TotalLength(ds: seq<string>): nat {
    if ds == [] then 0 else |ds[0]| + TotalLength(ds[1..])
  }

  // ---------------------------------------------------------------------------
  // Constructors

  /** WrapAction: any description is accepted. */
  function WrapAction(description: string, fn: nat): (s: Step)
    ensures forall show :: Description(s, show) == description
  {
    Leaf(description, fn)
  }

  /** Nop, one shared value. */
  const Nop: Step := NopStep

  function If(cond: bool, act: Step): (s: Step)
    ensures cond ==> s == act
    ensures !cond ==> s == Nop
  {
    if cond then act else Nop
  }

  /** Parallel: a step that is already a parallelAction is returned as is;
      anything else gets a new wrapper. */
  function Parallel(act: Step): (s: Step)
    ensures s.Par?
    ensures act.Par? ==> s == act
    ensures !act.Par? ==> s.inner == act
  {
    if act.Par? then act else Par(act)
  }

  /** Timeout always wraps, even around another Timeout. */
  function Timeout(timeout: int, act: Step): (s: Step)
    ensures s.TimeoutStep? && s.timeout == timeout && s.inner == act
  {
    TimeoutStep(timeout, act)
  }

  /** Sequential, Join, JoinOrdered and JoinInParallel panic on an empty list
      and return a single action itself. */
  function Sequential(actions: seq<Step>): (s: Step)
    requires |actions| > 0
    ensures |actions| == 1 ==> s == actions[0]
    ensures |actions| > 1 ==> s == Group(SequentialGroup, actions)
  {
    if |actions| == 1 then actions[0] else Group(SequentialGroup, actions)
  }

  /** Join shuffles once, when it is built: `shuffled` is the permutation
      lo.Shuffle chose, and both the run order and the description follow it. */
  function Join(actions: seq<Step>, shuffled: seq<Step>): (s: Step)
    requires |actions| > 0 && multiset(shuffled) == multiset(actions)
    ensures |actions| == 1 ==> s == actions[0]
    ensures |actions| > 1 ==> s == Group(JoinGroup, shuffled)
  {
    if |actions| == 1 then actions[0] else Group(JoinGroup, shuffled)
  }

  function JoinOrdered(actions: seq<Step>): (s: Step)
    requires |actions| > 0
    ensures |actions| == 1 ==> s == actions[0]
    ensures |actions| > 1 ==> s == Group(JoinOrderedGroup, actions)
  {
    if |actions| == 1 then actions[0] else Group(JoinOrderedGroup, actions)
  }

  function JoinInParallel(actions: seq<Step>): (s: Step)
    requires |actions| > 0
    ensures |actions| == 1 ==> s == actions[0]
    ensures |actions| > 1 ==> s == Group(JoinInParallelGroup, actions)
  {
    if |actions| == 1 then actions[0] else Group(JoinInParallelGroup, actions)
  }

  // ---------------------------------------------------------------------------
  // Properties of the leaves and wrappers

  /** A wrapped function is called exactly once, under the caller's context,
      and its outcome is returned untouched. */
  lemma WrapActionRuns(description: string, fn: nat, ctx: Ctx, impl: Impl)
    ensures Run(WrapAction(description, fn), ctx, impl) == Exec(impl(ctx, fn), [fn])
  {
  }

  /** Nop calls nothing, ignores its context and never asks for a requeue. */
  lemma NopRuns(ctx: Ctx, impl: Impl, show: int -> string)
    ensures Run(Nop, ctx, impl) == Exec(NoRequeue(), [])
    ensures !Requeues(Run(Nop, ctx, impl))
    ensures Description(Nop, show) == "Nop"
  {
  }

  /** If(false, a) never runs `a` and describes itself as "Nop". */
  lemma IfFalseIsNop(act: Step, ctx: Ctx, impl: Impl, show: int -> string)
    ensures Run(If(false, act), ctx, impl) == Exec(NoRequeue(), [])
    ensures Description(If(false, act), show) == "Nop"
  {
  }

  lemma ParallelIdempotent(act: Step)
    ensures Parallel(Parallel(act)) == Parallel(act)
  {
  }

  /** Parallel returns what its inner step returns and describes itself
      around it; only the top-level step is inspected. */
  lemma ParallelPassesThrough(act: Step, ctx: Ctx, impl: Impl, show: int -> string)
    ensures Run(Parallel(act), ctx, impl) == Run(act, ctx, impl)
    ensures !act.Par? ==> Description(Parallel(act), show) == "Parallel(" + Description(act, show) + ")"
    ensures act.Par? ==> Description(Parallel(act), show) == Description(act, show)
  {
  }

  /** A Timeout around a Parallel is wrapped again by Parallel. */
  lemma ParallelChecksTopLevelOnly(d: int, act: Step)
    ensures Parallel(Timeout(d, Parallel(act))) == Par(Timeout(d, Parallel(act)))
  {
  }

  /** Timeout returns what its inner step returns under the narrowed context,
      and writes the inner description before the duration. */
  lemma TimeoutPassesThrough(d: int, act: Step, ctx: Ctx, impl: Impl, show: int -> string)
    ensures Run(Timeout(d, act), ctx, impl) == Run(act, WithTimeout(ctx, d), impl)
    ensures Description(Timeout(d, act), show) == "Timeout(" + Description(act, show) + ", " + show(d) + ")"
  {
  }

  /** Nested Timeouts are not collapsed: the inner step sees both deadlines. */
  lemma TimeoutNotCollapsed(d: int, e: int, act: Step, ctx: Ctx, impl: Impl)
    ensures Timeout(d, Timeout(e, act)).inner == Timeout(e, act)
    ensures Run(Timeout(d, Timeout(e, act)), ctx, impl) == Run(act, WithTimeout(WithTimeout(ctx, d), e), impl)
  {
  }

  // ---------------------------------------------------------------------------
  // Properties of the groups

  /** Sequential runs its children in order and stops at the first one that
      needs a requeue, returning that child's outcome; no later child runs. */
  lemma SequentialStopsAtFirstRequeue(actions: seq<Step>, ctx: Ctx, impl: Impl, k: nat)
    requires |actions| > 1 && k < |actions|
    requires Requeues(Run(actions[k], ctx, impl))
    requires forall j :: 0 <= j < k ==> !Requeues(Run(actions[j], ctx, impl))
    ensures Run(Sequential(actions), ctx, impl).outcome == Run(actions[k], ctx, impl).outcome
    ensures Run(Sequential(actions), ctx, impl).calls == Flatten(Calls(RunAll(actions[..k + 1], ctx, impl)))
  {
    var es := RunAll(actions, ctx, impl);
    RunAllAt(actions, ctx, impl);
    SequentialFoldStops(es);
    assert FirstRequeue(es) == k;
    assert RunAll(actions[..k + 1], ctx, impl) == es[..k + 1];
  }

  /** When no child needs a requeue, Sequential runs them all and returns
      exactly NoRequeue(), whatever delays they returned. */
  lemma SequentialNoRequeue(actions: seq<Step>, ctx: Ctx, impl: Impl)
    requires |actions| > 1
    requires forall j :: 0 <= j < |actions| ==> !Requeues(Run(actions[j], ctx, impl))
    ensures Run(Sequential(actions), ctx, impl) == Exec(NoRequeue(), Flatten(Calls(RunAll(actions, ctx, impl))))
  {
    RunAllAt(actions, ctx, impl);
    SequentialFoldStops(RunAll(actions, ctx, impl));
  }

  /** A Sequential of several steps needs a requeue iff one of them does. */
  lemma SequentialRequeuesIff(actions: seq<Step>, ctx: Ctx, impl: Impl)
    requires |actions| > 1
    ensures Requeues(Run(Sequential(actions), ctx, impl))
            <==> exists i :: 0 <= i < |actions| && Requeues(Run(actions[i], ctx, impl))
  {
    RunAllAt(actions, ctx, impl);
    var es := RunAll(actions, ctx, impl);
    SequentialFoldRequeues(es);
    if exists i :: 0 <= i < |actions| && Requeues(Run(actions[i], ctx, impl)) {
      var i :| 0 <= i < |actions| && Requeues(Run(actions[i], ctx, impl));
      assert Requeues(es[i]);
    }
  }

  /** An Exit at the head of a Sequential stops it: nothing after it runs. */
  lemma ExitShortCircuitsSequential(fn: nat, rest: seq<Step>, ctx: Ctx, impl: Impl)
    requires |rest| > 0 && impl(ctx, fn) == Exit()
    ensures Run(Sequential([WrapAction("exit", fn)] + rest), ctx, impl) == Exec(Exit(), [fn])
  {
    var actions := [WrapAction("exit", fn)] + rest;
    SequentialStopsAtFirstRequeue(actions, ctx, impl, 0);
    assert actions[..1] == [Leaf("exit", fn)];
    assert Calls(RunAll(actions[..1], ctx, impl)) == [[fn]];
    assert Flatten([[fn]]) == [fn] by {
      assert [[fn]][1..] == [];
    }
  }

  /** A join of several steps runs every child exactly once, in the order
      held by the group, and merges all the outcomes. */
  lemma JoinOrderedRunsAll(actions: seq<Step>, ctx: Ctx, impl: Impl)
    requires |actions| > 1
    ensures Run(JoinOrdered(actions), ctx, impl)
            == Exec(JoinAll(Outcomes(RunAll(actions, ctx, impl))), Flatten(Calls(RunAll(actions, ctx, impl))))
    ensures Run(JoinInParallel(actions), ctx, impl) == Run(JoinOrdered(actions), ctx, impl)
  {
  }

  lemma RunAllPermutation(a: seq<Step>, b: seq<Step>, ctx: Ctx, impl: Impl)
    requires multiset(a) == multiset(b)
    ensures multiset(RunAll(a, ctx, impl)) == multiset(RunAll(b, ctx, impl))
  {
    var f := (c: Step) => Run(c, ctx, impl);
    assert RunAll(a, ctx, impl) == Map(f, a);
    assert RunAll(b, ctx, impl) == Map(f, b);
    MapPermutation(f, a, b);
  }

  /** Merging permuted runs gives the same result, the same multiset of
      errors and the same multiset of calls. */
  lemma JoinFoldPermutation(es1: seq<Exec>, es2: seq<Exec>)
    requires multiset(es1) == multiset(es2)
    ensures JoinFold(es1).outcome.result == JoinFold(es2).outcome.result
    ensures multiset(Parts(JoinFold(es1).outcome.err)) == multiset(Parts(JoinFold(es2).outcome.err))
    ensures multiset(JoinFold(es1).calls) == multiset(JoinFold(es2).calls)
  {
    MapPermutation((e: Exec) => e.outcome, es1, es2);
    JoinAllPermutation(Outcomes(es1), Outcomes(es2));
    MapPermutation((e: Exec) => e.calls, es1, es2);
    FlattenPermutation(Calls(es1), Calls(es2));
  }

  /** Join's shuffle changes neither the requeue fields, nor the multiset of
      errors, nor the multiset of calls, compared with JoinOrdered. */
  lemma JoinLikeJoinOrdered(actions: seq<Step>, shuffled: seq<Step>, ctx: Ctx, impl: Impl)
    requires |actions| > 0 && multiset(shuffled) == multiset(actions)
    ensures Run(Join(actions, shuffled), ctx, impl).outcome.result
            == Run(JoinOrdered(actions), ctx, impl).outcome.result
    ensures multiset(Parts(Run(Join(actions, shuffled), ctx, impl).outcome.err))
            == multiset(Parts(Run(JoinOrdered(actions), ctx, impl).outcome.err))
    ensures multiset(Run(Join(actions, shuffled), ctx, impl).calls)
            == multiset(Run(JoinOrdered(actions), ctx, impl).calls)
  {
    if |actions| > 1 {
      RunAllPermutation(shuffled, actions, ctx, impl);
      JoinFoldPermutation(RunAll(shuffled, ctx, impl), RunAll(actions, ctx, impl));
    }
  }

  /** Merging two lists of runs one after the other is merging their merges. */
  lemma JoinFoldAppend(ea: seq<Exec>, eb: seq<Exec>)
    ensures JoinFold(ea + eb)
            == Exec(JoinResultAndErr(JoinFold(ea).outcome, JoinFold(eb).outcome),
                    JoinFold(ea).calls + JoinFold(eb).calls)
  {
    assert Outcomes(ea + eb) == Outcomes(ea) + Outcomes(eb);
    assert Calls(ea + eb) == Calls(ea) + Calls(eb);
    JoinAllConcat(Outcomes(ea), Outcomes(eb));
    FlattenAppend(Calls(ea), Calls(eb));
  }

  /** Merging one run into the empty accumulator keeps it, once its delay is
      not negative and its error is nil or an aggregate (as a join's are). */
  lemma JoinFoldSingle(e: Exec)
    requires e.outcome.err == Nil || e.outcome.err.Multi?
    requires e.outcome.result.requeueAfter >= 0
    ensures JoinFold([e]) == e
  {
    assert Outcomes([e]) == [e.outcome];
    assert Calls([e]) == [e.calls];
    assert JoinAll([e.outcome]) == JoinResultAndErr(JoinAll([]), e.outcome);
    assert Flatten([e.calls]) == e.calls by {
      assert [e.calls][1..] == [];
    }
  }

  /** A JoinOrdered of two JoinOrdered groups merges like one JoinOrdered of
      all their children: nesting joins does not change the outcome. */
  lemma JoinOrderedNests(a: seq<Step>, b: seq<Step>, ctx: Ctx, impl: Impl)
    requires |a| > 1 && |b| > 1
    ensures Run(JoinOrdered([JoinOrdered(a), JoinOrdered(b)]), ctx, impl)
            == Run(JoinOrdered(a + b), ctx, impl)
  {
    var ea, eb := RunAll(a, ctx, impl), RunAll(b, ctx, impl);
    var pair := [JoinOrdered(a), JoinOrdered(b)];
    RunJoinOrdered(a, ctx, impl);
    RunJoinOrdered(b, ctx, impl);
    RunJoinOrdered(pair, ctx, impl);
    RunJoinOrdered(a + b, ctx, impl);
    RunAllAppend(a, b, ctx, impl);
    assert RunAll(pair, ctx, impl) == [JoinFold(ea), JoinFold(eb)];
    JoinFoldOfJoins(ea, eb);
  }

  lemma RunJoinOrdered(a: seq<Step>, ctx: Ctx, impl: Impl)
    requires |a| > 1
    ensures Run(JoinOrdered(a), ctx, impl) == JoinFold(RunAll(a, ctx, impl))
  {
  }

  lemma RunAllAppend(a: seq<Step>, b: seq<Step>, ctx: Ctx, impl: Impl)
    ensures RunAll(a + b, ctx, impl) == RunAll(a, ctx, impl) + RunAll(b, ctx, impl)
  {
    assert forall i :: 0 <= i < |a + b| ==> RunAll(a + b, ctx, impl)[i] == Run((a + b)[i], ctx, impl);
  }

  /** Merging the merges of two lists is merging the two lists together. */
  lemma JoinFoldOfJoins(ea: seq<Exec>, eb: seq<Exec>)
    ensures JoinFold([JoinFold(ea), JoinFold(eb)]) == JoinFold(ea + eb)
  {
    var xa, xb := JoinFold(ea), JoinFold(eb);
    JoinFoldAppend(ea, eb);
    assert [xa, xb] == [xa] + [xb];
    JoinFoldAppend([xa], [xb]);
    JoinFoldSingle(xa);
    JoinFoldSingle(xb);
  }

  /** An Exit merged by a join is kept inside the aggregate error, where
      IgnoreExit does not find it. */
  lemma ExitThroughJoinSurvives(actions: seq<Step>, ctx: Ctx, impl: Impl, k: nat)
    requires |actions| > 1 && k < |actions|
    requires Run(actions[k], ctx, impl).outcome == Exit()
    ensures var o := Run(JoinOrdered(actions), ctx, impl).outcome;
            IgnoreExit(o.result, o.err).err != Nil
  {
    var es := RunAll(actions, ctx, impl);
    RunAllAt(actions, ctx, impl);
    assert Outcomes(es)[k] == Exit();
    ExitThroughJoinIsNotIgnored(Outcomes(es), k);
  }

  /** The descriptions asserted by the package's join tests. JoinInParallel
      writes "JoinInParallel", not the "ParallelJoin" the test expects. */
  lemma JoinDescriptions(shuffled: seq<Step>, show: int -> string)
    requires multiset(shuffled) == multiset([Nop, Nop])
    ensures Description(Join([Nop, Nop], shuffled), show) == "Join(Nop, Nop)"
    ensures Description(JoinInParallel([Nop, Nop]), show) == "JoinInParallel(Nop, Nop)"
    ensures Description(JoinInParallel([Nop, Nop]), show) != "ParallelJoin(Nop, Nop)"
    ensures JoinInParallel([Nop]) == Nop
  {
    assert |shuffled| == 2;
    assert shuffled[0] in multiset([Nop, Nop]);
    assert shuffled[1] in multiset([Nop, Nop]);
    assert shuffled == [Nop, Nop];
    assert DescribeAll([Nop, Nop], show) == ["Nop", "Nop"];
    assert GoStrings.Join(["Nop", "Nop"], ", ") == "Nop, Nop" by {
      assert ["Nop", "Nop"][1..] == ["Nop"];
    }
    var j := Description(JoinInParallel([Nop, Nop]), show);
    assert j == "JoinInParallel(Nop, Nop)";
    assert j[0] != "ParallelJoin(Nop, Nop)"[0];
  }
}
