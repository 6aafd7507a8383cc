/** What a reconcile step reports: a `ctrl.Result` and a Go `error`, the
    helpers of loop.go and exit.go, and the merge rule of join.go. */
module Signal {
  import opened Seqs

  /** ctrl.Result: requeue now, and requeue after a delay (a time.Duration in
      nanoseconds; zero means unset). */
  datatype Result = Result(requeue: bool, requeueAfter: int)

  const EmptyResult: Result := Result(false, 0)

  /** The error values the algebra can tell apart: nil, the ErrExit sentinel,
      any other error (identified by a number) and a multierror aggregate. */
  datatype Error = Nil | ExitSentinel | Opaque(id: nat) | Multi(errors: seq<Error>)

  /** A (ctrl.Result, error) pair as returned by ReconcileAction.Run. */
  datatype Outcome = Outcome(result: Result, err: Error)

  // ---------------------------------------------------------------------------
  // loop.go

  /** NeedsRequeue: an error, an immediate requeue or a positive delay. */
  predicate NeedsRequeue(result: Result, err: Error) {
    err != Nil || result.requeue || result.requeueAfter > 0
  }

  function RequeueImmediately(): (o: Outcome)
    ensures o.err == Nil && o.result.requeue
    ensures NeedsRequeue(o.result, o.err)
  {
    Outcome(Result(true, 0), Nil)
  }

  function RequeueAfter(after: int): (o: Outcome)
    ensures o.err == Nil && !o.result.requeue && o.result.requeueAfter == after
    ensures NeedsRequeue(o.result, o.err) <==> after > 0
  {
    Outcome(Result(false, after), Nil)
  }

  function RequeueIfError(err: Error): (o: Outcome)
    ensures o.result == EmptyResult && o.err == err
    ensures NeedsRequeue(o.result, o.err) <==> err != Nil
  {
    Outcome(EmptyResult, err)
  }

  function NoRequeue(): (o: Outcome)
    ensures o.result == EmptyResult && o.err == Nil
    ensures !NeedsRequeue(o.result, o.err)
  {
    Outcome(EmptyResult, Nil)
  }

  // ---------------------------------------------------------------------------
  // exit.go

  /** ErrExit: one distinguished error value, compared by identity. */
  const ErrExit: Error := ExitSentinel

  function Exit(): (o: Outcome)
    ensures o.result == EmptyResult && o.err == ErrExit
    ensures NeedsRequeue(o.result, o.err)
  {
    Outcome(EmptyResult, ErrExit)
  }

  /** IgnoreExit clears the error only when it is exactly ErrExit; an
      aggregate that holds ErrExit is passed through untouched. */
  function IgnoreExit(result: Result, err: Error): (o: Outcome)
    ensures o.result == result
    ensures err == ErrExit ==> o.err == Nil
    ensures err != ErrExit ==> o.err == err
  {
    if err == ErrExit then Outcome(result, Nil) else Outcome(result, err)
  }

  lemma IgnoreExitIdempotent(result: Result, err: Error)
    ensures var o := IgnoreExit(result, err);
            IgnoreExit(o.result, o.err) == o
  {
  }

  // ---------------------------------------------------------------------------
  // join.go: joinResultAndErr and its fold

  /** The errors one operand contributes to multierror.Append: none for nil,
      the list of an aggregate (Append flattens one level), else itself. */
  function Parts(e: Error): seq<Error> {
    match e
    case Nil => []
    case Multi(es) => es
    case _ => [e]
  }

  /** multierror.Append(acc, e). */
  function Append(acc: Error, e: Error): Error {
    Multi(Parts(acc) + Parts(e))
  }

  /** `d` is the soonest positive delay among `ds`, or 0 when none is positive. */
  ghost predicate IsSoonest(d: int, ds: seq<int>) {
    if d == 0 then forall i :: 0 <= i < |ds| ==> ds[i] <= 0
    else d > 0 && d in ds && forall i :: 0 <= i < |ds| && ds[i] > 0 ==> d <= ds[i]
  }

  /** joinResultAndErr(result, err, lresult, lerr). */
  function JoinResultAndErr(acc: Outcome, l: Outcome): (r: Outcome)
    ensures r.result.requeue <==> acc.result.requeue || l.result.requeue
    ensures r.err == Nil <==> acc.err == Nil && l.err == Nil
    ensures l.err == Nil ==> r.err == acc.err
  {
    var err := if l.err != Nil then Append(acc.err, l.err) else acc.err;
    var requeue := if l.result.requeue then true else acc.result.requeue;
    var after :=
      if l.result.requeueAfter > 0
         && (acc.result.requeueAfter == 0 || acc.result.requeueAfter > l.result.requeueAfter)
      then l.result.requeueAfter
      else acc.result.requeueAfter;
    Outcome(Result(requeue, after), err)
  }

  /** A merge needs a requeue exactly when one of its two sides does, as
      long as the accumulated delay is not negative (the fold starts at 0). */
  lemma NeedsRequeueOfMerge(acc: Outcome, l: Outcome)
    requires acc.result.requeueAfter >= 0
    ensures NeedsRequeue(JoinResultAndErr(acc, l).result, JoinResultAndErr(acc, l).err)
            <==> NeedsRequeue(acc.result, acc.err) || NeedsRequeue(l.result, l.err)
  {
  }

  /** The merged error lists the accumulated errors, then the new ones. */
  lemma JoinResultAndErrParts(acc: Outcome, l: Outcome)
    ensures Parts(JoinResultAndErr(acc, l).err) == Parts(acc.err) + Parts(l.err)
  {
    if l.err == Nil {
      assert Parts(acc.err) + [] == Parts(acc.err);
    }
  }

  /** Folding one more delay into the soonest of a prefix keeps it the soonest. */
  lemma JoinResultAndErrSoonest(acc: Outcome, ds: seq<int>, l: Outcome)
    requires IsSoonest(acc.result.requeueAfter, ds)
    ensures IsSoonest(JoinResultAndErr(acc, l).result.requeueAfter, ds + [l.result.requeueAfter])
  {
    var a, x := acc.result.requeueAfter, l.result.requeueAfter;
    var r := JoinResultAndErr(acc, l).result.requeueAfter;
    var ds' := ds + [x];
    assert forall i :: 0 <= i < |ds| ==> ds'[i] == ds[i];
    assert ds'[|ds|] == x;
    if r == x && x > 0 {
      assert x in ds';
    } else if r > 0 {
      assert r == a;
      var i :| 0 <= i < |ds| && ds[i] == a;
      assert ds'[i] == r;
    }
  }

  function ErrorParts(outs: seq<Outcome>): seq<seq<Error>> {
    Map((o: Outcome) => Parts(o.err), outs)
  }

  function Delays(outs: seq<Outcome>): (ds: seq<int>)
    ensures |ds| == |outs|
    ensures forall i :: 0 <= i < |outs| ==> ds[i] == outs[i].result.requeueAfter
  {
    Map((o: Outcome) => o.result.requeueAfter, outs)
  }

  /** The accumulation loop of runJoinActions, starting from the zero result
      and a nil error. */
  function JoinAll(outs: seq<Outcome>): (r: Outcome)
    ensures r.err == Nil || r.err.Multi?
    ensures r.result.requeueAfter >= 0
  {
    if outs == [] then NoRequeue()
    else JoinResultAndErr(JoinAll(outs[..|outs| - 1]), outs[|outs| - 1])
  }

  /** The join requeues iff some child does, and its error is nil iff every
      child's is. */
  lemma {:induction false} JoinAllFlags(outs: seq<Outcome>)
    ensures JoinAll(outs).result.requeue <==> exists i :: 0 <= i < |outs| && outs[i].result.requeue
    ensures JoinAll(outs).err == Nil <==> forall i :: 0 <= i < |outs| ==> outs[i].err == Nil
  {
    if outs != [] {
      var init := outs[..|outs| - 1];
      JoinAllFlags(init);
      assert forall i :: 0 <= i < |init| ==> init[i] == outs[i];
    }
  }

  lemma JoinAllLast(outs: seq<Outcome>)
    requires outs != []
    ensures JoinAll(outs) == JoinResultAndErr(JoinAll(outs[..|outs| - 1]), outs[|outs| - 1])
  {
  }

  /** The joined delay is the soonest positive delay of all children, or 0. */
  lemma {:induction false} JoinAllSoonest(outs: seq<Outcome>)
    ensures IsSoonest(JoinAll(outs).result.requeueAfter, Delays(outs))
  {
    if outs != [] {
      var init := outs[..|outs| - 1];
      JoinAllSoonest(init);
      JoinResultAndErrSoonest(JoinAll(init), Delays(init), outs[|outs| - 1]);
      assert Delays(outs) == Delays(init) + [outs[|outs| - 1].result.requeueAfter];
    }
  }

  /** The joined error collects every child's errors, in order, each aggregate
      flattened one level. */
  lemma {:induction false} JoinAllErrors(outs: seq<Outcome>)
    ensures Parts(JoinAll(outs).err) == Flatten(ErrorParts(outs))
  {
    if outs != [] {
      var init := outs[..|outs| - 1];
      var last := outs[|outs| - 1];
      JoinAllErrors(init);
      JoinAllLast(outs);
      JoinResultAndErrParts(JoinAll(init), last);
      ErrorPartsSnoc(outs);
      FlattenSnoc(ErrorParts(init), Parts(last.err));
    }
  }

  lemma ErrorPartsSnoc(outs: seq<Outcome>)
    requires outs != []
    ensures ErrorParts(outs) == ErrorParts(outs[..|outs| - 1]) + [Parts(outs[|outs| - 1].err)]
  {
  }

  /** The soonest delay is determined by the delays alone. */
  lemma SoonestUnique(d1: int, d2: int, ds: seq<int>, ds': seq<int>)
    requires forall x :: x in ds <==> x in ds'
    requires IsSoonest(d1, ds) && IsSoonest(d2, ds')
    ensures d1 == d2
  {
    if d1 > 0 {
      assert d1 in ds';
    }
    if d2 > 0 {
      assert d2 in ds;
    }
  }

  /** Permuted outcomes hold the same delays. */
  lemma DelaysPermutation(a: seq<Outcome>, b: seq<Outcome>)
    requires multiset(a) == multiset(b)
    ensures forall x :: x in Delays(a) <==> x in Delays(b)
  {
    forall x | x in Delays(a) ensures x in Delays(b) {
      DelayIn(a, b, x);
    }
    forall x | x in Delays(b) ensures x in Delays(a) {
      DelayIn(b, a, x);
    }
  }

  lemma DelayIn(a: seq<Outcome>, b: seq<Outcome>, x: int)
    requires multiset(a) == multiset(b) && x in Delays(a)
    ensures x in Delays(b)
  {
    var i :| 0 <= i < |a| && Delays(a)[i] == x;
    assert a[i] in multiset(b);
    var j :| 0 <= j < |b| && b[j] == a[i];
    assert Delays(b)[j] == x;
  }

  /** Permuted outcomes agree on whether one of them requeues. */
  lemma RequeuePermutation(a: seq<Outcome>, b: seq<Outcome>)
    requires multiset(a) == multiset(b)
    ensures JoinAll(a).result.requeue == JoinAll(b).result.requeue
  {
    JoinAllFlags(a);
    JoinAllFlags(b);
    if JoinAll(a).result.requeue {
      var i :| 0 <= i < |a| && a[i].result.requeue;
      assert a[i] in multiset(b);
    }
    if JoinAll(b).result.requeue {
      var i :| 0 <= i < |b| && b[i].result.requeue;
      assert b[i] in multiset(a);
    }
  }

  /** Join's order does not matter: permuting the children leaves the requeue
      flag, the delay and the multiset of collected errors unchanged. */
  lemma JoinAllPermutation(a: seq<Outcome>, b: seq<Outcome>)
    requires multiset(a) == multiset(b)
    ensures JoinAll(a).result == JoinAll(b).result
    ensures multiset(Parts(JoinAll(a).err)) == multiset(Parts(JoinAll(b).err))
  {
    RequeuePermutation(a, b);
    DelaysPermutation(a, b);
    JoinAllSoonest(a);
    JoinAllSoonest(b);
    SoonestUnique(JoinAll(a).result.requeueAfter, JoinAll(b).result.requeueAfter, Delays(a), Delays(b));
    JoinAllErrors(a);
    JoinAllErrors(b);
    MapPermutation((o: Outcome) => Parts(o.err), a, b);
    FlattenPermutation(ErrorParts(a), ErrorParts(b));
  }

  /** Two outcomes merge the same way in either order (delays already folded,
      so not negative). */
  lemma JoinResultAndErrCommutes(x: Outcome, y: Outcome)
    requires x.result.requeueAfter >= 0 && y.result.requeueAfter >= 0
    ensures JoinResultAndErr(x, y).result == JoinResultAndErr(y, x).result
    ensures multiset(Parts(JoinResultAndErr(x, y).err)) == multiset(Parts(JoinResultAndErr(y, x).err))
  {
  }

  /** Merging is associative when the accumulated sides carry no negative delay. */
  lemma JoinResultAndErrAssociates(x: Outcome, y: Outcome, z: Outcome)
    requires x.result.requeueAfter >= 0 && y.result.requeueAfter >= 0
    ensures JoinResultAndErr(JoinResultAndErr(x, y), z) == JoinResultAndErr(x, JoinResultAndErr(y, z))
  {
    JoinErrAssociates(x, y, z);
  }

  /** The error half of the associativity: multierror.Append flattens both
      groupings to the same list. */
  lemma JoinErrAssociates(x: Outcome, y: Outcome, z: Outcome)
    ensures JoinResultAndErr(JoinResultAndErr(x, y), z).err == JoinResultAndErr(x, JoinResultAndErr(y, z)).err
  {
    var a, b, c := Parts(x.err), Parts(y.err), Parts(z.err);
    if y.err == Nil && z.err != Nil {
      assert b == [];
      assert b + c == c;
    } else if y.err != Nil && z.err != Nil {
      AppendAssoc(a, b, c);
    }
  }

  /** Joining a concatenation is joining the two joins: nested joins flatten. */
  lemma JoinAllConcatNothing(a: seq<Outcome>, b: seq<Outcome>)
    requires b == []
    ensures JoinAll(a + b) == JoinResultAndErr(JoinAll(a), JoinAll(b))
  {
    assert a + b == a;
    assert JoinAll(b) == NoRequeue();
    var r := JoinAll(a);
    assert r.err == Nil || r.err.Multi?;
  }

  lemma {:induction false} JoinAllConcat(a: seq<Outcome>, b: seq<Outcome>)
    ensures JoinAll(a + b) == JoinResultAndErr(JoinAll(a), JoinAll(b))
    decreases |b|
  {
    if b == [] {
      JoinAllConcatNothing(a, b);
    } else {
      JoinAllConcat(a, b[..|b| - 1]);
      JoinAllConcatStep(a, b);
    }
  }

  lemma JoinAllConcatStep(a: seq<Outcome>, b: seq<Outcome>)
    requires b != []
    requires JoinAll(a + b[..|b| - 1]) == JoinResultAndErr(JoinAll(a), JoinAll(b[..|b| - 1]))
    ensures JoinAll(a + b) == JoinResultAndErr(JoinAll(a), JoinAll(b))
  {
    JoinAllConcatLast(a, b);
    JoinAllLast(b);
    JoinResultAndErrAssociates(JoinAll(a), JoinAll(b[..|b| - 1]), b[|b| - 1]);
  }

  lemma JoinAllConcatLast(a: seq<Outcome>, b: seq<Outcome>)
    requires b != []
    ensures JoinAll(a + b) == JoinResultAndErr(JoinAll(a + b[..|b| - 1]), b[|b| - 1])
  {
    ConcatLast(a, b);
    JoinAllLast(a + b);
  }

  /** An Exit that goes through a join ends up inside an aggregate, which
      IgnoreExit does not strip. */
  lemma ExitThroughJoinIsNotIgnored(outs: seq<Outcome>, k: nat)
    requires k < |outs| && outs[k].err == ErrExit
    ensures JoinAll(outs).err != ErrExit
    ensures IgnoreExit(JoinAll(outs).result, JoinAll(outs).err).err != Nil
  {
  }

  /** The merge examples of the design: the soonest delay wins, and an error
      and an immediate requeue are both kept. */
  lemma JoinExamples()
    ensures JoinAll([RequeueAfter(5), RequeueAfter(2)]) == RequeueAfter(2)
    ensures JoinAll([RequeueIfError(Opaque(1)), RequeueImmediately()])
            == Outcome(Result(true, 0), Multi([Opaque(1)]))
    ensures JoinAll([RequeueIfError(Opaque(1)), RequeueAfter(5), RequeueAfter(2)])
            == Outcome(Result(false, 2), Multi([Opaque(1)]))
  {
  }
}
