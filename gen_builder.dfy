/** The string helpers of the code generator: package aliases, first-letter
    case changes, the `${target.X}` expression renderer, sorted map and
    selector rendering, indentation, the ownership check and the choice of
    state getter. */
module GenBuilder {
  import opened Seqs
  import opened GoStrings
  import opened GenModel
  import opened GenTokens
  import opened GenParser

  /** The value of code that may panic. */
  datatype Guarded<T> = Value(value: T) | Panic

  // ---------------------------------------------------------------------------
  // Package aliases

  /** constructPkgAliasForGvPkg: "corev1" for the core group; otherwise the
      last path segment (or the one before it, when the last is the version
      itself) followed by the version. A path without '/' panics. */
  function ConstructPkgAliasForGvPkg(bind: GvBind): (r: Guarded<string>)
    ensures bind.gv == "v1" ==> r == Value("corev1")
    ensures bind.gv != "v1" ==> (r.Panic? <==> '/' !in bind.pkg)
  {
    if bind.gv == "v1" then Value("corev1")
    else
      var slices := Split(bind.pkg, '/');
      SplitCount(bind.pkg, '/');
      if |slices| < 2 then Panic
      else if slices[|slices| - 1] == bind.parsed.version then Value(slices[|slices| - 2] + bind.parsed.version)
      else Value(slices[|slices| - 1] + bind.parsed.version)
  }

  /** For a package path made of '/'-free segments, the alias is the segment
      naming the package (skipping a trailing version segment) followed by
      the version. */
  lemma PkgAliasOfPath(gv: string, parsed: GroupVersion, segments: seq<string>)
    requires gv != "v1" && |segments| >= 2
    requires forall i :: 0 <= i < |segments| ==> '/' !in segments[i]
    ensures var n := |segments|;
            ConstructPkgAliasForGvPkg(GvBind(gv, parsed, Join(segments, "/")))
            == Value((if segments[n - 1] == parsed.version then segments[n - 2] else segments[n - 1]) + parsed.version)
  {
    var n := |segments|;
    SplitJoin(segments, '/');
    var r := ConstructPkgAliasForGvPkg(GvBind(gv, parsed, Join(segments, "/")));
    if segments[n - 1] == parsed.version {
      assert r == Value(segments[n - 2] + parsed.version);
    } else {
      assert r == Value(segments[n - 1] + parsed.version);
    }
  }

  // ---------------------------------------------------------------------------
  // First-letter case

  /** bytes.ToUpper on one ASCII byte. */
  function ToUpper(c: char): char {
    if 'a' <= c <= 'z' then (c as int - 32) as char else c
  }

  /** bytes.ToLower on one ASCII byte. */
  function ToLower(c: char): char {
    if 'A' <= c <= 'Z' then (c as int + 32) as char else c
  }

  function UpperTheFirstCharInWord(s: string): (r: string)
    ensures |r| == |s|
    ensures s != "" ==> r[0] == ToUpper(s[0]) && r[1..] == s[1..]
  {
    if s == "" then "" else [ToUpper(s[0])] + s[1..]
  }

  function LowerTheFirstCharInWord(s: string): (r: string)
    ensures |r| == |s|
    ensures s != "" ==> r[0] == ToLower(s[0]) && r[1..] == s[1..]
  {
    if s == "" then "" else [ToLower(s[0])] + s[1..]
  }

  /** Lowering undoes upper-casing of a lower-case first letter, and the
      other way round; each change is idempotent. */
  lemma CaseRoundTrips(s: string)
    ensures s != "" && 'a' <= s[0] <= 'z' ==> LowerTheFirstCharInWord(UpperTheFirstCharInWord(s)) == s
    ensures s != "" && 'A' <= s[0] <= 'Z' ==> UpperTheFirstCharInWord(LowerTheFirstCharInWord(s)) == s
    ensures UpperTheFirstCharInWord(UpperTheFirstCharInWord(s)) == UpperTheFirstCharInWord(s)
    ensures LowerTheFirstCharInWord(LowerTheFirstCharInWord(s)) == LowerTheFirstCharInWord(s)
  {
    if s != "" {
      var u := UpperTheFirstCharInWord(s);
      var l := LowerTheFirstCharInWord(s);
      assert u == [u[0]] + u[1..] && l == [l[0]] + l[1..];
      assert s == [s[0]] + s[1..];
    }
  }

  /** lowerTheFirstCharInSentences as written: the first word is lowered and
      the rest appended after the first ' ', but without that space. */
  function LowerTheFirstCharInSentencesAsWritten(s: string): string {
    var split := SplitN2(s, ' ');
    if |split| == 1 then LowerTheFirstCharInWord(split[0])
    else LowerTheFirstCharInWord(split[0]) + split[1]
  }

  /** The space after the first word is lost. */
  lemma SentencesAsWrittenDropsSpace(word: string, rest: string)
    requires ' ' !in word
    ensures LowerTheFirstCharInSentencesAsWritten(word + " " + rest) == LowerTheFirstCharInWord(word) + rest
  {
    var s := word + " " + rest;
    assert s == word + [' '] + rest;
    assert SplitN2(s, ' ') == [word, rest] by {
      assert s[|word|] == ' ';
      assert forall i :: 0 <= i < |word| ==> s[i] == word[i];
      assert s[..|word|] == word && s[|word| + 1..] == rest;
    }
  }

  /** lowerTheFirstCharInSentences as evidently intended: the first word is
      lowered and the separating space kept. */
  function LowerTheFirstCharInSentences(s: string): (r: string)
    ensures r == LowerTheFirstCharInWord(s)
  {
    var split := SplitN2(s, ' ');
    if |split| == 1 then LowerTheFirstCharInWord(split[0])
    else
      assert s == split[0] + " " + split[1];
      LowerTheFirstCharInWord(split[0]) + " " + split[1]
  }

  /** On every text with a space, the code as written is one character
      shorter than the intended result. */
  lemma SentencesAsWrittenDiffers(word: string, rest: string)
    requires ' ' !in word
    ensures |LowerTheFirstCharInSentencesAsWritten(word + " " + rest)|
            == |LowerTheFirstCharInSentences(word + " " + rest)| - 1
  {
    SentencesAsWrittenDropsSpace(word, rest);
  }

  // ---------------------------------------------------------------------------
  // The `${target.X}` expression renderer

  datatype StrExprError = UnclosedReference | NonTargetReference | DollarNotAllowed

  /** The Go expressions collected so far, or why the scan stopped. */
  datatype Scan = Parts(parts: seq<string>) | Refused(error: StrExprError) | SlicePanic

  /** What getStrExpr returns: the parts joined by " + ", an error, or a panic. */
  datatype ExprResult = Expr(text: string) | ExprError(error: StrExprError) | ExprPanic

  function Quote(s: string): string {
    "\"" + s + "\""
  }

  /** The Go expression for the text between "${" and "}": the stub itself
      without a '.', the stub's field after "target.", and nothing otherwise. */
  function ReferenceExpr(inner: string, stub: string): Option<string> {
    var targetAndUse := SplitN2(inner, '.');
    if |targetAndUse| < 2 then Some(stub)
    else if targetAndUse[0] == "target" then Some(stub + "." + targetAndUse[1])
    else None
  }

  function Then(part: string, rest: Scan): Scan {
    match rest
    case Parts(ps) => Parts([part] + ps)
    case _ => rest
  }

  function ThenAll(parts: seq<string>, rest: Scan): Scan {
    match rest
    case Parts(ps) => Parts(parts + ps)
    case _ => rest
  }

  lemma ThenAllSnoc(parts: seq<string>, part: string, rest: Scan)
    ensures ThenAll(parts, Then(part, rest)) == ThenAll(parts + [part], rest)
  {
    if rest.Parts? {
      assert parts + ([part] + rest.parts) == (parts + [part]) + rest.parts;
    }
  }

  function Finish(sc: Scan): ExprResult {
    match sc
    case Parts(ps) => Expr(Join(ps, " + "))
    case Refused(e) => ExprError(e)
    case SlicePanic => ExprPanic
  }

  /** One step of the scan: a Go expression and how far the scan advances,
      or the end of the scan. */
  datatype Step = Emit(part: string, next: nat) | Halt(result: Scan)

  function Shift(step: Step, k: nat): Step {
    match step
    case Emit(part, next) => Emit(part, k + next)
    case Halt(_) => step
  }

  /** A reference, given the text `t` after its "${": up to the first '}' it
      must name the target or one of its fields; `next` counts the
      characters of `t` consumed, the '}' included. */
  function Reference(t: string, stub: string): (r: Step)
    ensures r.Emit? ==> 0 < r.next <= |t|
    ensures r.Halt? ==> r.result.Refused?
  {
    var rightBracket := Index(t, '}');
    if rightBracket < 0 then Halt(Refused(UnclosedReference))
    else
      match ReferenceExpr(t[..rightBracket], stub)
      case None => Halt(Refused(NonTargetReference))
      case Some(e) => Emit(e, rightBracket + 1)
  }

  /** The reference branch of getStrExpr's loop. */
  method NextReference(t: string, targetStub: string) returns (step: Step)
    ensures step == Reference(t, targetStub)
  {
    var rightBracketIndex := Index(t, '}');
    if rightBracketIndex < 0 {
      return Halt(Refused(UnclosedReference));
    }
    var targetAndUse := SplitN2(t[..rightBracketIndex], '.');
    if |targetAndUse| < 2 {
      return Emit(targetStub, rightBracketIndex + 1);
    } else if targetAndUse[0] == "target" {
      return Emit(targetStub + "." + targetAndUse[1], rightBracketIndex + 1);
    }
    return Halt(Refused(NonTargetReference));
  }

  /** The literal branch of getStrExpr's loop as written, given the offset
      of the next '$' in the text from `i` on: the literal is sliced up to
      that offset taken as an absolute position, which panics once it is
      below `i`, and the scan resumes one past the '$', which is so never
      seen. */
  function LiteralAsWritten(expr: string, i: nat, nextDollar: int): (r: Step)
    requires i < |expr| && -1 <= nextDollar < |expr| - i
    ensures r.Emit? ==> i < r.next <= |expr|
  {
    if nextDollar < 0 then Emit(Quote(expr[i..]), |expr|)
    else if nextDollar < i then Halt(SlicePanic)
    else Emit(Quote(expr[i..nextDollar]), i + nextDollar + 1)
  }

  /** One step of getStrExpr as written, at position `i` of `expr`; `next`
      is the position the scan resumes at. */
  function StepAsWritten(expr: string, i: nat, stub: string): (r: Step)
    requires i < |expr|
    ensures r.Emit? ==> i < r.next <= |expr|
    ensures r.Halt? ==> !r.result.Parts?
  {
    if i < |expr| - 2 && expr[i..i + 2] == "${" then Shift(Reference(expr[i + 2..], stub), i + 2)
    else if expr[i] == '$' then Halt(Refused(DollarNotAllowed))
    else LiteralAsWritten(expr, i, Index(expr[i..], '$'))
  }

  function ScanAsWritten(expr: string, i: nat, stub: string): Scan
    requires i <= |expr|
    decreases |expr| - i
  {
    if i == |expr| then Parts([])
    else
      match StepAsWritten(expr, i, stub)
      case Halt(sc) => sc
      case Emit(part, next) => Then(part, ScanAsWritten(expr, next, stub))
  }

  /** One step of getStrExpr as evidently intended, at the start of `s`:
      literal text runs up to the next '$', which then starts a reference;
      `next` counts the characters consumed. */
  function StepExpr(s: string, stub: string): (r: Step)
    requires s != ""
    ensures r.Emit? ==> 0 < r.next <= |s|
    ensures r.Halt? ==> r.result.Refused?
  {
    if 2 < |s| && s[..2] == "${" then Shift(Reference(s[2..], stub), 2)
    else if s[0] == '$' then Halt(Refused(DollarNotAllowed))
    else
      var nextDollar := Index(s, '$');
      if nextDollar < 0 then Emit(Quote(s), |s|)
      else Emit(Quote(s[..nextDollar]), nextDollar)
  }

  function ScanExpr(s: string, stub: string): Scan
    decreases |s|
  {
    if s == "" then Parts([])
    else
      match StepExpr(s, stub)
      case Halt(sc) => sc
      case Emit(part, next) => Then(part, ScanExpr(s[next..], stub))
  }

  /** The body of getStrExpr's loop as written: the next Go expression and
      where the scan resumes, or the error or panic it stops with. */
  method NextExprAsWritten(expr: string, i: nat, targetStub: string) returns (step: Step)
    requires i < |expr|
    ensures step == StepAsWritten(expr, i, targetStub)
  {
    if i < |expr| - 2 && expr[i..i + 2] == "${" {
      step := NextReference(expr[i + 2..], targetStub);
      step := Shift(step, i + 2);
    } else if expr[i] == '$' {
      step := Halt(Refused(DollarNotAllowed));
    } else {
      var nextDollarIndex := Index(expr[i..], '$');
      step := LiteralAsWritten(expr, i, nextDollarIndex);
    }
  }

  /** getStrExpr as written. */
  method GetStrExprAsWritten(expr: string, targetStub: string) returns (r: ExprResult)
    ensures r == Finish(ScanAsWritten(expr, 0, targetStub))
  {
    var exprs: seq<string> := [];
    var i := 0;
    while i < |expr|
      invariant i <= |expr|
      invariant ScanAsWritten(expr, 0, targetStub) == ThenAll(exprs, ScanAsWritten(expr, i, targetStub))
      decreases |expr| - i
    {
      var step := NextExprAsWritten(expr, i, targetStub);
      ScanAsWrittenStep(expr, i, targetStub, step);
      if step.Halt? {
        return Finish(step.result);
      }
      ThenAllSnoc(exprs, step.part, ScanAsWritten(expr, step.next, targetStub));
      exprs, i := exprs + [step.part], step.next;
    }
    assert exprs + [] == exprs;
    return Expr(Join(exprs, " + "));
  }

  /** The body of getStrExpr's loop with the literal sliced relative to the
      scan position and the '$' left for the next step; `next` counts the
      characters consumed. */
  method NextExpr(expr: string, i: nat, targetStub: string) returns (step: Step)
    requires i < |expr|
    ensures step == StepExpr(expr[i..], targetStub)
  {
    ghost var s := expr[i..];
    if i < |expr| - 2 && expr[i..i + 2] == "${" {
      assert s[..2] == expr[i..i + 2] && s[2..] == expr[i + 2..];
      step := NextReference(expr[i + 2..], targetStub);
      step := Shift(step, 2);
    } else if expr[i] == '$' {
      step := Halt(Refused(DollarNotAllowed));
    } else {
      var nextDollarIndex := Index(expr[i..], '$');
      if nextDollarIndex < 0 {
        step := Emit(Quote(expr[i..]), |expr| - i);
      } else {
        step := Emit(Quote(expr[i..i + nextDollarIndex]), nextDollarIndex);
      }
    }
  }

  lemma ScanExprUnfold(s: string, stub: string, step: Step)
    requires s != "" && step == StepExpr(s, stub)
    ensures step.Halt? ==> ScanExpr(s, stub) == step.result
    ensures step.Emit? ==> ScanExpr(s, stub) == Then(step.part, ScanExpr(s[step.next..], stub))
  {
  }

  /** What the loop of getStrExpr keeps: after the step at `i`, either the
      scan has its result or the collected parts grow by the step's part and
      the position moves past it. */
  lemma ScanExprAdvance(expr: string, i: nat, exprs: seq<string>, stub: string, step: Step,
                        exprs': seq<string>, i': nat)
    requires i < |expr| && step == StepExpr(expr[i..], stub)
    requires step.Emit? ==> exprs' == exprs + [step.part] && i' == i + step.next
    ensures step.Halt? ==> ThenAll(exprs, ScanExpr(expr[i..], stub)) == step.result
    ensures step.Halt? ==> !step.result.Parts?
    ensures step.Emit? ==> i < i' <= |expr|
    ensures step.Emit? ==> ThenAll(exprs, ScanExpr(expr[i..], stub))
                           == ThenAll(exprs', ScanExpr(expr[i'..], stub))
  {
    var s := expr[i..];
    ScanExprUnfold(s, stub, step);
    if step.Emit? {
      var rest := s[step.next..];
      assert rest == expr[i'..];
      ThenAllSnoc(exprs, step.part, ScanExpr(rest, stub));
    }
  }

  /** One pass of getStrExpr's loop body, stated as what it does to the
      parts collected so far and to the scan position. */
  method AdvanceExpr(expr: string, i: nat, exprs: seq<string>, targetStub: string)
    returns (step: Step, exprs': seq<string>, i': nat)
    requires i < |expr|
    ensures step.Halt? ==> ThenAll(exprs, ScanExpr(expr[i..], targetStub)) == step.result
    ensures step.Halt? ==> !step.result.Parts?
    ensures step.Emit? ==> i < i' <= |expr| && exprs' == exprs + [step.part]
    ensures step.Emit? ==> ThenAll(exprs, ScanExpr(expr[i..], targetStub))
                           == ThenAll(exprs', ScanExpr(expr[i'..], targetStub))
  {
    step := NextExpr(expr, i, targetStub);
    exprs', i' := exprs, i;
    if step.Emit? {
      exprs', i' := exprs + [step.part], i + step.next;
    }
    ScanExprAdvance(expr, i, exprs, targetStub, step, exprs', i');
  }

  /** getStrExpr as evidently intended. */
  method GetStrExpr(expr: string, targetStub: string) returns (r: ExprResult)
    ensures r == Finish(ScanExpr(expr, targetStub))
  {
    var exprs: seq<string> := [];
    var i := 0;
    assert expr[i..] == expr;
    while i < |expr|
      invariant i <= |expr|
      invariant ScanExpr(expr, targetStub) == ThenAll(exprs, ScanExpr(expr[i..], targetStub))
      decreases |expr| - i
    {
      var step, exprs', i' := AdvanceExpr(expr, i, exprs, targetStub);
      if step.Halt? {
        return Finish(step.result);
      }
      exprs, i := exprs', i';
    }
    ScanExprEnd(exprs, expr, targetStub);
    r := Expr(Join(exprs, " + "));
    FinishParts(exprs, r);
  }

  lemma FinishParts(exprs: seq<string>, r: ExprResult)
    requires r == Expr(Join(exprs, " + "))
    ensures r == Finish(Parts(exprs))
  {
  }

  /** Past the end of the text nothing more is collected. */
  lemma ScanExprEnd(exprs: seq<string>, expr: string, stub: string)
    ensures ThenAll(exprs, ScanExpr(expr[|expr|..], stub)) == Parts(exprs)
  {
    assert expr[|expr|..] == "";
    assert exprs + [] == exprs;
  }

  // The template language of `${target.X}` expressions, and what the
  // renderer is meant to make of it.

  datatype Segment = Literal(text: string) | Target | Field(name: string)

  function Print(seg: Segment): string {
    match seg
    case Literal(t) => t
    case Target => "${target}"
    case Field(n) => "${target." + n + "}"
  }

  function Render(seg: Segment, stub: string): string {
    match seg
    case Literal(t) => Quote(t)
    case Target => stub
    case Field(n) => stub + "." + n
  }

  function PrintAll(segs: seq<Segment>): string {
    if segs == [] then "" else Print(segs[0]) + PrintAll(segs[1..])
  }

  function RenderAll(segs: seq<Segment>, stub: string): seq<string> {
    if segs == [] then [] else [Render(segs[0], stub)] + RenderAll(segs[1..], stub)
  }

  /** Literals are non-empty and free of '$', field names free of '}', and
      no two literals are adjacent (they would read as one). */
  predicate Template(segs: seq<Segment>) {
    forall i :: 0 <= i < |segs| ==>
      && (segs[i].Literal? ==> segs[i].text != "" && '$' !in segs[i].text)
      && (segs[i].Field? ==> '}' !in segs[i].name)
      && (segs[i].Literal? && i + 1 < |segs| ==> !segs[i + 1].Literal?)
  }

  /** A reference whose text up to the first '}' is `inner`. */
  lemma ReferenceOfInner(inner: string, rest: string, stub: string)
    requires '}' !in inner
    ensures Reference(inner + "}" + rest, stub)
            == match ReferenceExpr(inner, stub)
               case None => Halt(Refused(NonTargetReference))
               case Some(e) => Emit(e, |inner| + 1)
  {
    assert inner + "}" + rest == inner + ("}" + rest);
    IndexAfter(inner, "}" + rest, '}');
    assert (inner + ("}" + rest))[..|inner|] == inner;
  }

  lemma FieldOfTarget(name: string, stub: string)
    ensures ReferenceExpr("target." + name, stub) == Some(stub + "." + name)
  {
    var inner := "target." + name;
    assert inner == "target" + ("." + name);
    IndexAfter("target", "." + name, '.');
    assert inner[..6] == "target" && inner[7..] == name;
  }

  /** A printed reference is read back as the stub or its field. */
  lemma ReferenceOfField(name: string, rest: string, stub: string)
    requires '}' !in name
    ensures Reference("target." + name + "}" + rest, stub) == Emit(stub + "." + name, |name| + 8)
  {
    var inner := "target." + name;
    assert '}' !in inner by {
      assert forall j :: 0 <= j < |inner| ==> inner[j] == if j < 7 then "target."[j] else name[j - 7];
    }
    FieldOfTarget(name, stub);
    ReferenceOfInner(inner, rest, stub);
  }

  lemma ReferenceOfTarget(rest: string, stub: string)
    ensures Reference("target}" + rest, stub) == Emit(stub, 7)
  {
    assert "target}" + rest == "target" + ("}" + rest);
    IndexAfter("target", "}" + rest, '}');
    assert ("target}" + rest)[..6] == "target";
  }

  /** The step the renderer takes over one printed segment. */
  lemma StepOfSegment(seg: Segment, rest: string, stub: string)
    requires seg.Literal? ==> seg.text != "" && '$' !in seg.text && (rest == "" || rest[0] == '$')
    requires seg.Field? ==> '}' !in seg.name
    ensures Print(seg) + rest != ""
    ensures StepExpr(Print(seg) + rest, stub) == Emit(Render(seg, stub), |Print(seg)|)
  {
    match seg
    case Literal(t) => StepOfLiteral(t, rest, stub);
    case Target => StepOfTarget(rest, stub);
    case Field(n) => StepOfField(n, rest, stub);
  }

  lemma StepOfLiteral(t: string, rest: string, stub: string)
    requires t != "" && '$' !in t && (rest == "" || rest[0] == '$')
    ensures StepExpr(t + rest, stub) == Emit(Quote(t), |t|)
  {
    var s := t + rest;
    IndexAfter(t, rest, '$');
    if rest != "" {
      assert Index(rest, '$') == 0;
    }
    assert s[0] == t[0] && s[..|t|] == t;
  }

  lemma StepOfTarget(rest: string, stub: string)
    ensures StepExpr("${target}" + rest, stub) == Emit(stub, 9)
  {
    var s := "${target}" + rest;
    assert s[..2] == "${" && s[2..] == "target}" + rest;
    ReferenceOfTarget(rest, stub);
  }

  lemma StepOfField(n: string, rest: string, stub: string)
    requires '}' !in n
    ensures StepExpr("${target." + n + "}" + rest, stub) == Emit(stub + "." + n, |n| + 10)
  {
    var s := "${target." + n + "}" + rest;
    assert s[..2] == "${" && s[2..] == "target." + n + "}" + rest;
    ReferenceOfField(n, rest, stub);
  }

  /** Rendering a printed template gives back one Go expression per segment,
      in order. */
  lemma {:induction false} ScanPrinted(segs: seq<Segment>, stub: string)
    requires Template(segs)
    ensures ScanExpr(PrintAll(segs), stub) == Parts(RenderAll(segs, stub))
    decreases |segs|
  {
    if segs != [] {
      var rest := PrintAll(segs[1..]);
      assert Template(segs[1..]) by {
        forall i | 0 <= i < |segs[1..]|
          ensures segs[1..][i] == segs[i + 1]
        {
        }
      }
      if segs[0].Literal? && rest != "" {
        assert segs[1..] != [];
        assert !segs[1].Literal?;
        assert rest == Print(segs[1]) + PrintAll(segs[2..]);
      }
      StepOfSegment(segs[0], rest, stub);
      var s := PrintAll(segs);
      assert s[|Print(segs[0])|..] == rest;
      ScanPrinted(segs[1..], stub);
    }
  }

  /** A template's expression is its segments' expressions joined by " + ". */
  lemma GetStrExprOfTemplate(segs: seq<Segment>, stub: string)
    requires Template(segs)
    ensures Finish(ScanExpr(PrintAll(segs), stub)) == Expr(Join(RenderAll(segs, stub), " + "))
  {
    ScanPrinted(segs, stub);
  }

  /** The intended renderer never slices out of bounds. */
  lemma {:induction false} ScanExprNeverPanics(s: string, stub: string)
    ensures ScanExpr(s, stub) != SlicePanic
    decreases |s|
  {
    if s != "" {
      match StepExpr(s, stub)
      case Halt(sc) =>
      case Emit(part, next) => ScanExprNeverPanics(s[next..], stub);
    }
  }

  /** Text without '$' becomes one quoted literal, in both versions. */
  lemma NoReference(s: string, stub: string)
    requires s != "" && '$' !in s
    ensures ScanExpr(s, stub) == Parts([Quote(s)])
    ensures ScanAsWritten(s, 0, stub) == Parts([Quote(s)])
  {
    assert s[0..] == s;
    if 2 < |s| {
      assert s[..2][0] == s[0] != '$' == "${"[0];
    }
  }

  /** As written, literal text at the start that runs into a '$' is quoted,
      and the scan resumes past the '$'. */
  lemma LeadingLiteralAsWritten(expr: string, lit: string, tail: string, stub: string)
    requires expr == lit + ("$" + tail) && lit != "" && '$' !in lit
    ensures StepAsWritten(expr, 0, stub) == Emit(Quote(lit), |lit| + 1)
  {
    assert expr[0..] == expr;
    assert Index("$" + tail, '$') == 0;
    IndexAfter(lit, "$" + tail, '$');
    assert expr[0..|lit|] == lit;
    if 2 < |expr| {
      assert expr[0..2][0] == lit[0] != '$' == "${"[0];
    }
  }

  /** As written, text from `i` on without '$' is quoted to the end. */
  lemma TrailingLiteralAsWritten(expr: string, i: nat, stub: string)
    requires i < |expr| && '$' !in expr[i..]
    ensures ScanAsWritten(expr, i, stub) == Parts([Quote(expr[i..])])
  {
    assert expr[i] == expr[i..][0];
    if i < |expr| - 2 {
      assert expr[i..i + 2][0] == expr[i] != '$' == "${"[0];
    }
    assert StepAsWritten(expr, i, stub) == Emit(Quote(expr[i..]), |expr|);
  }

  /** As written, a reference after literal text is not read: the '$' is
      skipped and the rest is quoted as text. */
  lemma AsWrittenLosesReference(lit: string, name: string, stub: string)
    requires lit != "" && '$' !in lit && '$' !in name && '}' !in name
    ensures ScanAsWritten(lit + "${target." + name + "}", 0, stub)
            == Parts([Quote(lit), Quote("{target." + name + "}")])
  {
    var tail := "{target." + name + "}";
    assert lit + "${target." + name + "}" == lit + ("$" + tail);
    BracedFieldFree(name);
    AsWrittenSkipsDollar(lit + ("$" + tail), lit, tail, stub);
  }

  lemma BracedFieldFree(name: string)
    requires '$' !in name
    ensures '$' !in "{target." + name + "}"
  {
    var tail := "{target." + name + "}";
    assert forall j :: 0 <= j < |tail| ==> tail[j] == if j < 8 then "{target."[j] else if j < |tail| - 1 then name[j - 8] else '}';
  }

  /** As written, literal text, a '$' and '$'-free text scan as the two
      quoted texts. */
  lemma AsWrittenSkipsDollar(expr: string, lit: string, tail: string, stub: string)
    requires expr == lit + ("$" + tail) && lit != "" && '$' !in lit
    requires tail != "" && '$' !in tail
    ensures ScanAsWritten(expr, 0, stub) == Parts([Quote(lit), Quote(tail)])
  {
    var i := |lit| + 1;
    LeadingLiteralAsWritten(expr, lit, tail, stub);
    ScanAsWrittenStep(expr, 0, stub, Emit(Quote(lit), i));
    assert expr[i..] == tail;
    TrailingLiteralAsWritten(expr, i, stub);
  }

  /** The scan as written from `i` is the step there followed by the scan
      from where the step leaves off. */
  lemma ScanAsWrittenStep(expr: string, i: nat, stub: string, step: Step)
    requires i < |expr| && step == StepAsWritten(expr, i, stub)
    ensures step.Halt? ==> ScanAsWritten(expr, i, stub) == step.result
    ensures step.Emit? ==> ScanAsWritten(expr, i, stub) == Then(step.part, ScanAsWritten(expr, step.next, stub))
  {
  }

  /** The intended renderer reads the same text as the literal and the
      target's field. */
  lemma ReadsReferenceAfterLiteral(lit: string, name: string, stub: string)
    requires lit != "" && '$' !in lit && '}' !in name
    ensures ScanExpr(lit + "${target." + name + "}", stub) == Parts([Quote(lit), stub + "." + name])
  {
    var segs := [Literal(lit), Field(name)];
    assert PrintAll(segs[1..][1..]) == "";
    assert PrintAll(segs) == lit + "${target." + name + "}";
    assert RenderAll(segs[1..][1..], stub) == [];
    assert RenderAll(segs, stub) == [Quote(lit), stub + "." + name];
    ScanPrinted(segs, stub);
  }

  /** As written, literal text at position `i` that runs into a '$' is
      sliced up to the '$''s offset, which panics when that offset is
      below `i`. */
  lemma LiteralPanicsAsWritten(expr: string, i: nat, lit: string, rest: string, stub: string)
    requires i < |expr| && expr[i..] == lit + ("$" + rest)
    requires lit != "" && '$' !in lit && |lit| < i
    ensures StepAsWritten(expr, i, stub) == Halt(SlicePanic)
  {
    assert Index("$" + rest, '$') == 0;
    IndexAfter(lit, "$" + rest, '$');
    assert expr[i] == expr[i..][0] == lit[0];
    if i < |expr| - 2 {
      assert expr[i..i + 2][0] == lit[0] != '$' == "${"[0];
    }
  }

  /** As written, a literal shorter than the reference before it, followed
      by a '$', panics, where the intended renderer never does. */
  lemma AsWrittenPanics(name: string, lit: string, rest: string, stub: string)
    requires '}' !in name && lit != "" && '$' !in lit && |lit| < |name| + 10
    ensures ScanAsWritten("${target." + name + "}" + lit + "$" + rest, 0, stub) == SlicePanic
    ensures ScanExpr("${target." + name + "}" + lit + "$" + rest, stub) != SlicePanic
  {
    var expr := "${target." + name + "}" + lit + "$" + rest;
    var after := lit + ("$" + rest);
    var ref := "${target." + name + "}";
    var i := |name| + 10;
    assert |ref| == i && expr == ref + after;
    assert expr[..2] == "${" && expr[2..] == "target." + name + "}" + after;
    ReferenceOfField(name, after, stub);
    assert StepAsWritten(expr, 0, stub) == Emit(stub + "." + name, i);
    assert expr[i..] == after;
    LiteralPanicsAsWritten(expr, i, lit, rest, stub);
    ScanExprNeverPanics(expr, stub);
  }

  // ---------------------------------------------------------------------------
  // What getStrExpr refuses, and references without a field

  /** A "${" whose text has no '}' is refused as unclosed, in both versions. */
  lemma UnclosedRefused(x: string, stub: string)
    requires x != "" && '}' !in x
    ensures ScanExpr("${" + x, stub) == Refused(UnclosedReference)
    ensures ScanAsWritten("${" + x, 0, stub) == Refused(UnclosedReference)
  {
    var s := "${" + x;
    assert s[..2] == "${" && s[0..2] == "${" && s[2..] == x;
  }

  /** A reference `${a.b}` whose head `a` is not "target" is refused, in
      both versions. */
  lemma NonTargetRefused(a: string, b: string, rest: string, stub: string)
    requires a != "target" && '.' !in a && '}' !in a && '}' !in b
    ensures ScanExpr("${" + a + "." + b + "}" + rest, stub) == Refused(NonTargetReference)
    ensures ScanAsWritten("${" + a + "." + b + "}" + rest, 0, stub) == Refused(NonTargetReference)
  {
    var inner := a + "." + b;
    NonTargetInner(a, b, stub);
    ReferenceOfInner(inner, rest, stub);
    ReferenceText(a, b, rest);
    HaltingReference(inner + "}" + rest, stub);
  }

  lemma ReferenceText(a: string, b: string, rest: string)
    ensures "${" + a + "." + b + "}" + rest == "${" + (a + "." + b + "}" + rest)
  {
  }

  /** A reference the renderer cannot read ends the scan with its error,
      in both versions. */
  lemma HaltingReference(t: string, stub: string)
    requires t != "" && Reference(t, stub).Halt?
    ensures ScanExpr("${" + t, stub) == Reference(t, stub).result
    ensures ScanAsWritten("${" + t, 0, stub) == Reference(t, stub).result
  {
    var s := "${" + t;
    assert s[..2] == "${" && s[0..2] == "${" && s[2..] == t;
  }

  lemma NonTargetInner(a: string, b: string, stub: string)
    requires a != "target" && '.' !in a
    ensures ReferenceExpr(a + "." + b, stub) == None
  {
    var inner := a + "." + b;
    assert inner == a + ("." + b);
    IndexAfter(a, "." + b, '.');
    assert inner[..|a|] == a;
  }

  /** A '$' that does not open a reference is refused, in both versions:
      a bare '$', a '$' not followed by '{', and "${" with nothing after it. */
  lemma DollarRefused(t: string, stub: string)
    requires |t| < 2 || t[0] != '{'
    ensures ScanExpr("$" + t, stub) == Refused(DollarNotAllowed)
    ensures ScanAsWritten("$" + t, 0, stub) == Refused(DollarNotAllowed)
  {
    var s := "$" + t;
    assert s[0] == '$';
    if 2 < |s| {
      assert s[..2][1] == t[0] && s[0..2][1] == t[0];
    }
  }

  /** A reference without a '.' reads as the stub itself, whatever it
      names, in both versions. */
  lemma ReferenceWithoutField(x: string, rest: string, stub: string)
    requires '.' !in x && '}' !in x
    ensures ScanExpr("${" + x + "}" + rest, stub) == Then(stub, ScanExpr(rest, stub))
    ensures ScanExpr("${" + x + "}", stub) == Parts([stub])
    ensures ScanAsWritten("${" + x + "}", 0, stub) == Parts([stub])
  {
    var s := "${" + x + "}" + rest;
    StepOfBareReference(x, rest, stub);
    ScanExprUnfold(s, stub, StepExpr(s, stub));
    assert s[|x| + 3..] == rest;
    var t := "${" + x + "}";
    StepOfBareReference(x, "", stub);
    assert t + "" == t;
    ScanExprUnfold(t, stub, StepExpr(t, stub));
    assert t[|x| + 3..] == "";
    ScanAsWrittenStep(t, 0, stub, StepAsWritten(t, 0, stub));
  }

  /** The step both versions take over a reference without a '.'. */
  lemma StepOfBareReference(x: string, rest: string, stub: string)
    requires '.' !in x && '}' !in x
    ensures StepExpr("${" + x + "}" + rest, stub) == Emit(stub, |x| + 3)
    ensures StepAsWritten("${" + x + "}" + rest, 0, stub) == Emit(stub, |x| + 3)
  {
    assert SplitN2(x, '.') == [x];
    ReferenceOfInner(x, rest, stub);
    OpeningReference(x + "}" + rest, stub);
    assert "${" + x + "}" + rest == "${" + (x + "}" + rest);
  }

  /** Both versions read "${" followed by more text as a reference. */
  lemma OpeningReference(t: string, stub: string)
    requires t != ""
    ensures StepExpr("${" + t, stub) == Shift(Reference(t, stub), 2)
    ensures StepAsWritten("${" + t, 0, stub) == Shift(Reference(t, stub), 2)
  {
    var s := "${" + t;
    assert s[..2] == "${" && s[0..2] == "${" && s[2..] == t;
  }

  /** After any printed template, the intended renderer goes on from the
      next '$' exactly as it would at the start of the text. */
  lemma {:induction false} ScanPrintedThen(segs: seq<Segment>, s: string, stub: string)
    requires Template(segs) && (s == "" || s[0] == '$')
    ensures ScanExpr(PrintAll(segs) + s, stub) == ThenAll(RenderAll(segs, stub), ScanExpr(s, stub))
    decreases |segs|
  {
    if segs == [] {
      assert PrintAll(segs) + s == s;
      ThenAllNone(ScanExpr(s, stub));
    } else {
      ScanPrintedHead(segs, s, stub);
      ScanPrintedThen(segs[1..], s, stub);
      ThenOfThenAll(Render(segs[0], stub), RenderAll(segs[1..], stub), ScanExpr(s, stub));
    }
  }

  /** The first segment of a printed template is one step of the scan. */
  lemma ScanPrintedHead(segs: seq<Segment>, s: string, stub: string)
    requires Template(segs) && segs != [] && (s == "" || s[0] == '$')
    ensures Template(segs[1..])
    ensures ScanExpr(PrintAll(segs) + s, stub) == Then(Render(segs[0], stub), ScanExpr(PrintAll(segs[1..]) + s, stub))
  {
    var rest := PrintAll(segs[1..]);
    TemplateTail(segs);
    if segs[0].Literal? {
      assert rest + s == "" || (rest + s)[0] == '$';
    }
    PrintAllCons(segs, s);
    ScanAfterSegment(segs[0], rest + s, stub);
  }

  lemma PrintAllCons(segs: seq<Segment>, s: string)
    requires segs != []
    ensures PrintAll(segs) + s == Print(segs[0]) + (PrintAll(segs[1..]) + s)
  {
  }

  /** A printed segment is one step of the scan. */
  lemma ScanAfterSegment(seg: Segment, tail: string, stub: string)
    requires seg.Literal? ==> seg.text != "" && '$' !in seg.text && (tail == "" || tail[0] == '$')
    requires seg.Field? ==> '}' !in seg.name
    ensures ScanExpr(Print(seg) + tail, stub) == Then(Render(seg, stub), ScanExpr(tail, stub))
  {
    StepOfSegment(seg, tail, stub);
    var whole := Print(seg) + tail;
    assert whole[|Print(seg)|..] == tail;
    ScanExprUnfold(whole, stub, StepExpr(whole, stub));
  }

  /** What follows a template's first segment is again a template, and
      after a literal it is empty or starts a reference. */
  lemma TemplateTail(segs: seq<Segment>)
    requires Template(segs) && segs != []
    ensures Template(segs[1..])
    ensures segs[0].Literal? && PrintAll(segs[1..]) != "" ==> PrintAll(segs[1..])[0] == '$'
  {
    assert Template(segs[1..]) by {
      forall i | 0 <= i < |segs[1..]|
        ensures segs[1..][i] == segs[i + 1]
      {
      }
    }
    var rest := PrintAll(segs[1..]);
    if segs[0].Literal? && rest != "" {
      assert segs[1..] != [];
      assert !segs[1].Literal?;
      assert rest == Print(segs[1]) + PrintAll(segs[2..]);
    }
  }

  lemma ThenAllNone(sc: Scan)
    ensures ThenAll([], sc) == sc
  {
    if sc.Parts? {
      assert [] + sc.parts == sc.parts;
    }
  }

  lemma ThenOfThenAll(part: string, parts: seq<string>, sc: Scan)
    ensures Then(part, ThenAll(parts, sc)) == ThenAll([part] + parts, sc)
  {
    if sc.Parts? {
      assert [part] + (parts + sc.parts) == ([part] + parts) + sc.parts;
    }
  }

  /** The refusals after literal text and references: a refusal further on
      is the result of the whole text. */
  lemma RefusedAfterTemplate(segs: seq<Segment>, s: string, stub: string)
    requires Template(segs) && s != "" && s[0] == '$' && ScanExpr(s, stub).Refused?
    ensures ScanExpr(PrintAll(segs) + s, stub) == ScanExpr(s, stub)
    ensures Finish(ScanExpr(PrintAll(segs) + s, stub)) == ExprError(ScanExpr(s, stub).error)
  {
    ScanPrintedThen(segs, s, stub);
  }

  /** After literal text, an unclosed reference, a non-target reference and
      a '$' that opens no reference are refused by the intended renderer. */
  lemma RefusalsAfterLiteral(lit: string, x: string, a: string, b: string, t: string, stub: string)
    requires lit != "" && '$' !in lit
    requires x != "" && '}' !in x
    requires a != "target" && '.' !in a && '}' !in a && '}' !in b
    requires |t| < 2 || t[0] != '{'
    ensures ScanExpr(lit + ("${" + x), stub) == Refused(UnclosedReference)
    ensures ScanExpr(lit + ("${" + a + "." + b + "}"), stub) == Refused(NonTargetReference)
    ensures ScanExpr(lit + ("$" + t), stub) == Refused(DollarNotAllowed)
  {
    var segs := [Literal(lit)];
    assert Template(segs);
    assert PrintAll(segs) == lit by {
      assert PrintAll(segs[1..]) == "";
    }
    UnclosedRefused(x, stub);
    RefusedAfterTemplate(segs, "${" + x, stub);
    NonTargetRefused(a, b, "", stub);
    assert "${" + a + "." + b + "}" + "" == "${" + a + "." + b + "}";
    RefusedAfterTemplate(segs, "${" + a + "." + b + "}", stub);
    DollarRefused(t, stub);
    RefusedAfterTemplate(segs, "$" + t, stub);
  }

  /** The renderer a caller of getStrExpr runs: the loop as written, which
      is what the package calls, or the loop as evidently intended. */
  datatype Renderer = AsWritten | Intended

  function ScanWith(renderer: Renderer, expr: string, stub: string): Scan {
    match renderer
    case AsWritten => ScanAsWritten(expr, 0, stub)
    case Intended => ScanExpr(expr, stub)
  }

  method GetStrExprWith(renderer: Renderer, expr: string, targetStub: string) returns (r: ExprResult)
    ensures r == Finish(ScanWith(renderer, expr, targetStub))
  {
    match renderer
    case AsWritten => r := GetStrExprAsWritten(expr, targetStub);
    case Intended => r := GetStrExpr(expr, targetStub);
  }

  /** getStateNameExpr: the `name` selector rendered against "s.target"; a
      state without one reads the empty text. */
  function NameSelector(state: StateValue): string {
    if "name" in state.selectors then state.selectors["name"] else ""
  }

  method GetStateNameExpr(renderer: Renderer, state: StateValue) returns (r: ExprResult)
    ensures r == Finish(ScanWith(renderer, NameSelector(state), "s.target"))
    ensures NameSelector(state) == "" ==> r == Expr("")
    ensures renderer == Intended ==> r != ExprPanic
  {
    var nameSelector := NameSelector(state);
    r := GetStrExprWith(renderer, nameSelector, "s.target");
    ScanExprNeverPanics(nameSelector, "s.target");
  }

  /** With the renderer as written, a `name` selector holding a field
      reference followed by a short literal and a '$' panics; with the
      intended renderer it does not. */
  lemma NameSelectorPanicsAsWritten(state: StateValue, name: string, lit: string, rest: string)
    requires NameSelector(state) == "${target." + name + "}" + lit + "$" + rest
    requires '}' !in name && lit != "" && '$' !in lit && |lit| < |name| + 10
    ensures Finish(ScanWith(AsWritten, NameSelector(state), "s.target")) == ExprPanic
    ensures Finish(ScanWith(Intended, NameSelector(state), "s.target")) != ExprPanic
  {
    AsWrittenPanics(name, lit, rest, "s.target");
  }

  // ---------------------------------------------------------------------------
  // Sorted map rendering

  /** One line of generateMapKeyAndValuesInGo: indent"k":"v", and, in the
      unquoted variant, indent"k":v, */
  function EntryLine(indent: string, k: string, v: string, quoted: bool): string {
    indent + "\"" + k + "\":" + (if quoted then Quote(v) else v) + ","
  }

  /** The lines for `keys`, in that order. */
  function EntryLines(kv: map<string, string>, keys: seq<string>, indent: string, quoted: bool): (lines: seq<string>)
    requires forall i :: 0 <= i < |keys| ==> keys[i] in kv
    ensures |lines| == |keys|
    ensures forall i :: 0 <= i < |keys| ==> lines[i] == EntryLine(indent, keys[i], kv[keys[i]], quoted)
  {
    seq(|keys|, i requires 0 <= i < |keys| => EntryLine(indent, keys[i], kv[keys[i]], quoted))
  }

  /** What both renderers produce: one line per key in ascending key order,
      joined by newlines, with no newline after the last. */
  function MapText(kv: map<string, string>, indent: string, quoted: bool): string {
    Join(EntryLines(kv, SortedKeys(kv.Keys), indent, quoted), "\n")
  }

  /** The loop shared by the renderers: every line followed by a newline,
      and then the last newline cut off. */
  method WriteLines(lines: seq<string>) returns (s: string)
    requires lines != []
    ensures s == Join(lines, "\n")
  {
    var buf := "";
    for j := 0 to |lines|
      invariant buf == Terminated(lines[..j], "\n")
    {
      TerminatedPrefix(lines, j, "\n");
      buf := buf + lines[j] + "\n";
    }
    assert lines[..|lines|] == lines;
    TerminatedSnoc(lines[..|lines| - 1], lines[|lines| - 1], "\n");
    assert lines[..|lines| - 1] + [lines[|lines| - 1]] == lines;
    TerminatedJoin(lines, "\n");
    s := buf[..|buf| - 1];
  }

  /** generateMapKeyAndValuesInGo. */
  method GenerateMapKeyAndValuesInGo(kv: map<string, string>, indent: string) returns (s: string)
    ensures s == MapText(kv, indent, true)
  {
    if |kv| == 0 {
      return "";
    }
    var keys := SortedKeys(kv.Keys);
    s := WriteLines(EntryLines(kv, keys, indent, true));
  }

  /** generateMapKeyAndUnquotedValuesInGo. */
  method GenerateMapKeyAndUnquotedValuesInGo(kv: map<string, string>, indent: string) returns (s: string)
    ensures s == MapText(kv, indent, false)
  {
    if |kv| == 0 {
      return "";
    }
    var keys := SortedKeys(kv.Keys);
    s := WriteLines(EntryLines(kv, keys, indent, false));
  }

  /** The rendered map has one line per key, ascending by key, each naming
      its key and value; an empty map renders as nothing. */
  lemma MapTextLines(kv: map<string, string>, indent: string, quoted: bool)
    requires '\n' !in indent
    requires forall k :: k in kv ==> '\n' !in k && '\n' !in kv[k]
    ensures kv == map[] ==> MapText(kv, indent, quoted) == ""
    ensures kv != map[] ==>
              var lines := Split(MapText(kv, indent, quoted), '\n');
              var keys := SortedKeys(kv.Keys);
              && |lines| == |kv|
              && StrictlySorted(keys)
              && (forall k :: k in kv <==> k in keys)
              && (forall i :: 0 <= i < |lines| ==> lines[i] == EntryLine(indent, keys[i], kv[keys[i]], quoted))
  {
    var keys := SortedKeys(kv.Keys);
    if kv != map[] {
      var lines := EntryLines(kv, keys, indent, quoted);
      assert |kv.Keys| == |kv|;
      forall i | 0 <= i < |lines|
        ensures '\n' !in lines[i]
      {
        assert keys[i] in kv;
      }
      SplitJoin(lines, '\n');
    } else {
      assert kv.Keys == {};
    }
  }

  // ---------------------------------------------------------------------------
  // Selector comments

  /** One line of formatSelectorsIntoComments: the key, and "=v" for a
      non-empty value. */
  function SelectorLine(k: string, v: string): string {
    "//   + " + k + (if v != "" then "=" + v else "")
  }

  function SelectorLines(selectors: map<string, string>): (lines: seq<string>)
    ensures |lines| == |selectors|
  {
    var keys := SortedKeys(selectors.Keys);
    assert |selectors.Keys| == |selectors|;
    seq(|keys|, i requires 0 <= i < |keys| => SelectorLine(keys[i], selectors[keys[i]]))
  }

  /** formatSelectorsIntoComments as written: the final newline is cut off
      even when nothing was written, which panics. */
  function SelectorCommentsAsWritten(selectors: map<string, string>): Guarded<string> {
    if |selectors| == 0 then Panic else Value(Join(SelectorLines(selectors), "\n"))
  }

  /** formatSelectorsIntoComments as evidently intended: nothing for no
      selectors. */
  function SelectorComments(selectors: map<string, string>): string {
    Join(SelectorLines(selectors), "\n")
  }

  method FormatSelectorsIntoCommentsAsWritten(selectors: map<string, string>) returns (r: Guarded<string>)
    ensures r == SelectorCommentsAsWritten(selectors)
  {
    var lines := SelectorLines(selectors);
    if lines == [] {
      return Panic;
    }
    var s := WriteLines(lines);
    return Value(s);
  }

  method FormatSelectorsIntoComments(selectors: map<string, string>) returns (s: string)
    ensures s == SelectorComments(selectors)
  {
    var lines := SelectorLines(selectors);
    if lines == [] {
      return "";
    }
    s := WriteLines(lines);
  }

  /** The two versions agree except on the empty selector table, where the
      written one panics. */
  lemma SelectorCommentsAgree(selectors: map<string, string>)
    ensures SelectorCommentsAsWritten(selectors).Panic? <==> selectors == map[]
    ensures selectors != map[] ==> SelectorCommentsAsWritten(selectors) == Value(SelectorComments(selectors))
    ensures selectors == map[] ==> SelectorComments(selectors) == ""
  {
    if selectors == map[] {
      assert |selectors| == 0;
    } else {
      var k :| k in selectors;
      assert k in selectors.Keys;
      assert |selectors| > 0;
    }
  }

  /** One comment line per selector, ascending by key. */
  lemma SelectorCommentLines(selectors: map<string, string>)
    requires selectors != map[]
    requires forall k :: k in selectors ==> '\n' !in k && '\n' !in selectors[k]
    ensures var keys := SortedKeys(selectors.Keys);
            var lines := Split(SelectorComments(selectors), '\n');
            && |lines| == |selectors| == |keys|
            && (forall i :: 0 <= i < |lines| ==> lines[i] == SelectorLine(keys[i], selectors[keys[i]]))
  {
    var lines := SelectorLines(selectors);
    SelectorLinesFree(selectors);
    SplitJoin(lines, '\n');
  }

  /** With newline-free keys and values, there is at least one line and no
      line holds a newline. */
  lemma SelectorLinesFree(selectors: map<string, string>)
    requires selectors != map[]
    requires forall k :: k in selectors ==> '\n' !in k && '\n' !in selectors[k]
    ensures |SelectorLines(selectors)| >= 1
    ensures forall i :: 0 <= i < |SelectorLines(selectors)| ==> '\n' !in SelectorLines(selectors)[i]
  {
    var keys := SortedKeys(selectors.Keys);
    var lines := SelectorLines(selectors);
    var k :| k in selectors;
    assert k in selectors.Keys;
    forall i | 0 <= i < |lines|
      ensures '\n' !in lines[i]
    {
      assert keys[i] in selectors;
    }
  }

  // ---------------------------------------------------------------------------
  // Indentation and the ownership check

  /** indentStr: `indent` before every line. */
  function IndentStr(s: string, indent: string): string {
    Join(IndentLines(Split(s, '\n'), indent), "\n")
  }

  function IndentLines(lines: seq<string>, indent: string): (r: seq<string>)
    ensures |r| == |lines|
    ensures forall i :: 0 <= i < |lines| ==> r[i] == indent + lines[i]
  {
    seq(|lines|, i requires 0 <= i < |lines| => indent + lines[i])
  }

  /** Indenting keeps the lines, each with the indent in front. */
  lemma IndentStrLines(s: string, indent: string)
    requires '\n' !in indent
    ensures Split(IndentStr(s, indent), '\n') == IndentLines(Split(s, '\n'), indent)
  {
    var lines := IndentLines(Split(s, '\n'), indent);
    forall i | 0 <= i < |lines|
      ensures '\n' !in lines[i]
    {
      assert '\n' !in Split(s, '\n')[i];
    }
    SplitJoin(lines, '\n');
  }

  lemma IndentLinesTwice(lines: seq<string>, inner: string, outer: string)
    ensures IndentLines(IndentLines(lines, inner), outer) == IndentLines(lines, outer + inner)
  {
    forall i | 0 <= i < |lines|
      ensures IndentLines(IndentLines(lines, inner), outer)[i] == IndentLines(lines, outer + inner)[i]
    {
      assert outer + (inner + lines[i]) == (outer + inner) + lines[i];
    }
  }

  /** Indenting twice is indenting once by both indents. */
  lemma IndentStrTwice(s: string, inner: string, outer: string)
    requires '\n' !in inner
    ensures IndentStr(IndentStr(s, inner), outer) == IndentStr(s, outer + inner)
  {
    var lines := Split(s, '\n');
    IndentStrLines(s, inner);
    IndentLinesTwice(lines, inner, outer);
  }

  function OwnershipHeader(stateVar: string, owned: bool): string {
    "if " + (if owned then "" else "!") + "ctrlkit.ValidateOwnership(&" + stateVar + ", s.target) {"
  }

  /** `body` on the lines between `first` and `last`. */
  function Around(first: string, body: string, last: string): string {
    first + "\n" + body + "\n" + last
  }

  lemma SplitAround(first: string, body: string, last: string)
    requires '\n' !in first
    ensures Split(Around(first, body, last), '\n') == [first] + Split(body, '\n') + Split(last, '\n')
  {
    SplitAppend(first + "\n" + body, last, '\n');
    SplitAppend(first, body, '\n');
    SplitFree(first, '\n');
  }

  /** generateCheckOwnership: an if/else on the ownership of `stateVar`
      around the tab-indented blocks, the negated test when only the false
      block is given, and nothing when neither is. The `indent` argument is
      not used by the source. */
  function GenerateCheckOwnership(stateVar: string, trueBlock: string, falseBlock: string, indent: string): string {
    if trueBlock != "" && falseBlock != "" then
      Around(OwnershipHeader(stateVar, true), IndentStr(trueBlock, "\t"),
             Around("} else {", IndentStr(falseBlock, "\t"), "}"))
    else if trueBlock != "" then
      Around(OwnershipHeader(stateVar, true), IndentStr(trueBlock, "\t"), "}")
    else if falseBlock != "" then
      Around(OwnershipHeader(stateVar, false), IndentStr(falseBlock, "\t"), "}")
    else ""
  }

  lemma HeaderOneLine(stateVar: string, owned: bool)
    requires '\n' !in stateVar
    ensures '\n' !in OwnershipHeader(stateVar, owned)
  {
  }

  /** The test, the indented lines of one block and the closing bracket. */
  lemma OneBlockLines(stateVar: string, owned: bool, block: string)
    requires '\n' !in stateVar
    ensures Split(Around(OwnershipHeader(stateVar, owned), IndentStr(block, "\t"), "}"), '\n')
            == [OwnershipHeader(stateVar, owned)] + IndentLines(Split(block, '\n'), "\t") + ["}"]
  {
    HeaderOneLine(stateVar, owned);
    IndentStrLines(block, "\t");
    SplitFree("}", '\n');
    SplitAround(OwnershipHeader(stateVar, owned), IndentStr(block, "\t"), "}");
  }

  /** The test, the indented lines of the true block, "} else {", the
      indented lines of the false block and the closing bracket. */
  lemma TwoBlockLines(stateVar: string, trueBlock: string, falseBlock: string)
    requires '\n' !in stateVar
    ensures Split(Around(OwnershipHeader(stateVar, true), IndentStr(trueBlock, "\t"),
                         Around("} else {", IndentStr(falseBlock, "\t"), "}")), '\n')
            == [OwnershipHeader(stateVar, true)] + IndentLines(Split(trueBlock, '\n'), "\t") + ["} else {"]
               + IndentLines(Split(falseBlock, '\n'), "\t") + ["}"]
  {
    var h := OwnershipHeader(stateVar, true);
    var t := IndentLines(Split(trueBlock, '\n'), "\t");
    var f := IndentLines(Split(falseBlock, '\n'), "\t");
    HeaderOneLine(stateVar, true);
    IndentStrLines(trueBlock, "\t");
    IndentStrLines(falseBlock, "\t");
    SplitFree("}", '\n');
    SplitAround("} else {", IndentStr(falseBlock, "\t"), "}");
    SplitAround(h, IndentStr(trueBlock, "\t"), Around("} else {", IndentStr(falseBlock, "\t"), "}"));
    AppendAssoc([h] + t, ["} else {"] + f, ["}"]);
    AppendAssoc([h] + t, ["} else {"], f);
  }

  /** The lines of the ownership check: the test, the indented lines of the
      given blocks (separated by "} else {" when both are given) and the
      closing bracket. */
  lemma CheckOwnershipLines(stateVar: string, trueBlock: string, falseBlock: string, indent: string)
    requires '\n' !in stateVar
    ensures var r := GenerateCheckOwnership(stateVar, trueBlock, falseBlock, indent);
            var t := IndentLines(Split(trueBlock, '\n'), "\t");
            var f := IndentLines(Split(falseBlock, '\n'), "\t");
            && (r == "" <==> trueBlock == "" && falseBlock == "")
            && (trueBlock != "" && falseBlock != "" ==>
                  Split(r, '\n') == [OwnershipHeader(stateVar, true)] + t + ["} else {"] + f + ["}"])
            && (trueBlock != "" && falseBlock == "" ==>
                  Split(r, '\n') == [OwnershipHeader(stateVar, true)] + t + ["}"])
            && (trueBlock == "" && falseBlock != "" ==>
                  Split(r, '\n') == [OwnershipHeader(stateVar, false)] + f + ["}"])
  {
    if trueBlock != "" && falseBlock != "" {
      TwoBlockLines(stateVar, trueBlock, falseBlock);
    } else if trueBlock != "" {
      OneBlockLines(stateVar, true, trueBlock);
    } else if falseBlock != "" {
      OneBlockLines(stateVar, false, falseBlock);
    }
  }

  // ---------------------------------------------------------------------------
  // State getters

  /** The zero value of a state, read for a name the table lacks. */
  const NoState := StateValue([], "", "", false, map[])

  /** The zero value of a bind, read for a group-version the table lacks. */
  const NoBind := GvBind("", GroupVersion("", ""), "")

  /** getParamRefType: the Go type of an action parameter, `*` before the
      state's kind or, for an array state, a slice of it; the kind and its
      package alias come from the state type's alias and bind. */
  function GetParamRefType(doc: DocValue, decl: DeclValue, param: string): Guarded<Parsed<string>> {
    var stateDecl := if param in decl.states then decl.states[param] else NoState;
    match ParseGvk(doc.GetGvkByAlias(stateDecl.stateType))
    case Fail(c) => Value(Fail(c))
    case Ok(gvk) =>
      var gv := gvk.Gv().String();
      var typeBind := if gv in doc.gvPkgBinds then doc.gvPkgBinds[gv] else NoBind;
      match ConstructPkgAliasForGvPkg(typeBind)
      case Panic => Panic
      case Value(alias) => Value(Ok((if stateDecl.isArray then "[]" else "*") + alias + "." + gvk.kind))
  }

  /** In a parsed document a parameter naming a state of its declaration
      never fails to resolve: its type is the package alias of the bound
      group-version and the alias's kind, and it panics exactly when that
      bind's package path has no '/' (and is not the core group). */
  lemma ParamRefTypeResolves(doc: DocValue, decl: DeclValue, param: string)
    requires DocResolves(doc) && DeclResolves(doc, decl) && param in decl.states
    ensures var st := decl.states[param];
            var gvk := ParseGvk(doc.gvkAliases[st.stateType]).value;
            var bind := doc.gvPkgBinds[gvk.Gv().String()];
            var r := GetParamRefType(doc, decl, param);
            && !(r.Value? && r.value.Fail?)
            && (r.Panic? <==> bind.gv != "v1" && '/' !in bind.pkg)
            && (r.Value? ==> r.value.value == (if st.isArray then "[]" else "*")
                                              + ConstructPkgAliasForGvPkg(bind).value + "." + gvk.kind)
  {
    var st := decl.states[param];
    assert doc.DoesAliasExists(st.stateType);
  }

  /** A parameter that names no state reads the zero state, whose empty type
      is no alias: the error for the empty group-version-kind. */
  lemma UnknownParamFails(doc: DocValue, decl: DeclValue, param: string)
    requires param !in decl.states && "" !in doc.gvkAliases
    ensures GetParamRefType(doc, decl, param) == Value(Fail(InvalidGvk("")))
  {
  }

  /** The four branches of generateGrabStatePolyfillCodes. */
  datatype GrabKind = NameOnArray | GetByName | ListAll | GetByList

  /** generateGrabStatePolyfillCodes chooses by the `name` selector and the
      array flag; a named array state is an error. */
  function GrabStateKind(state: StateValue): GrabKind {
    if "name" in state.selectors then (if state.isArray then NameOnArray else GetByName)
    else if state.isArray then ListAll
    else GetByList
  }

  /** The branches that list objects write the state's selectors as
      comments. */
  predicate FormatsSelectors(kind: GrabKind) {
    kind == ListAll || kind == GetByList
  }

  /** A state with no selectors is listed, and so, as written, panics when
      its selectors are written as comments; the intended version writes
      no comment lines. A state block opened and closed at once, such as
      `pods []pod {` followed by `}`, has no selectors. */
  lemma NoSelectorsPanicsAsWritten(state: StateValue)
    requires state.selectors == map[]
    ensures FormatsSelectors(GrabStateKind(state))
    ensures GrabStateKind(state) == (if state.isArray then ListAll else GetByList)
    ensures SelectorCommentsAsWritten(state.selectors) == Panic
    ensures SelectorComments(state.selectors) == ""
  {
    SelectorCommentsAgree(state.selectors);
  }

  /** A state gets one getter kind, and only a state with a `name` selector
      avoids writing its selectors. */
  lemma GrabStateKinds(state: StateValue)
    ensures GrabStateKind(state) == NameOnArray <==> "name" in state.selectors && state.isArray
    ensures GrabStateKind(state) == GetByName <==> "name" in state.selectors && !state.isArray
    ensures FormatsSelectors(GrabStateKind(state)) <==> "name" !in state.selectors
    ensures FormatsSelectors(GrabStateKind(state)) ==> (GrabStateKind(state) == ListAll <==> state.isArray)
  {
  }

  // ---------------------------------------------------------------------------
  // Matching labels and fields

  /** The text of a rendered expression (empty when it was refused). */
  function ExprText(sc: Scan): string {
    if sc.Parts? then Join(sc.parts, " + ") else ""
  }

  lemma SuffixDetermines(a: string, b: string, prefix: string)
    requires HasPrefix(a, prefix) && HasPrefix(b, prefix) && a[|prefix|..] == b[|prefix|..]
    ensures a == b
  {
    assert a == a[..|prefix|] + a[|prefix|..];
    assert b == b[..|prefix|] + b[|prefix|..];
  }

  /** The selectors among `keys` under `prefix`, keyed by the text after
      it, each rendered against "s.target". */
  function MatchingOf(renderer: Renderer, selectors: map<string, string>, prefix: string, keys: set<string>)
    : (m: map<string, string>)
    ensures forall k :: k in keys && k in selectors && HasPrefix(k, prefix) ==>
              k[|prefix|..] in m && m[k[|prefix|..]] == ExprText(ScanWith(renderer, selectors[k], "s.target"))
    ensures forall k' :: k' in m ==> prefix + k' in keys && prefix + k' in selectors
  {
    var ks := set k | k in keys && k in selectors && HasPrefix(k, prefix);
    assert forall k :: k in ks ==> prefix + k[|prefix|..] == k by {
      forall k | k in ks ensures prefix + k[|prefix|..] == k {
        assert k == k[..|prefix|] + k[|prefix|..];
      }
    }
    map k | k in ks :: k[|prefix|..] := ExprText(ScanWith(renderer, selectors[k], "s.target"))
  }

  /** What generateMatchingLabels and generateMatchingFields compute (with
      the prefixes "labels/" and "fields/"): the map text, the error of a
      refused selector, or a panic inside getStrExpr. */
  datatype Matching = Rendered(text: string) | MatchingError(error: StrExprError) | MatchingPanic

  /** generateMatchingLabels / generateMatchingFields: every selector under
      `prefix` is rendered, and the renderings are written unquoted under
      the text after the prefix. Go ranges over the map in no fixed order,
      so when several selectors fail the failure reported is any one of
      theirs. */
  method GenerateMatching(renderer: Renderer, selectors: map<string, string>, prefix: string, indent: string)
    returns (r: Matching)
    ensures r.Rendered? <==>
              forall k :: k in selectors && HasPrefix(k, prefix) ==> ScanWith(renderer, selectors[k], "s.target").Parts?
    ensures r.MatchingError? ==> exists k :: k in selectors && HasPrefix(k, prefix)
                                            && ScanWith(renderer, selectors[k], "s.target") == Refused(r.error)
    ensures r.MatchingPanic? ==> exists k :: k in selectors && HasPrefix(k, prefix)
                                            && ScanWith(renderer, selectors[k], "s.target") == SlicePanic
    ensures renderer == Intended ==> !r.MatchingPanic?
    ensures r.Rendered? ==> r.text == MapText(MatchingOf(renderer, selectors, prefix, selectors.Keys), indent, false)
  {
    var labels, failed := RenderSelectors(renderer, selectors, prefix);
    if failed.Some? {
      ghost var k :| k in selectors && HasPrefix(k, prefix) && Failure(ScanWith(renderer, selectors[k], "s.target"), failed.value);
      if failed.value.ExprPanic? {
        ScanExprNeverPanics(selectors[k], "s.target");
        return MatchingPanic;
      }
      return MatchingError(failed.value.error);
    }
    var text := GenerateMapKeyAndUnquotedValuesInGo(labels, indent);
    r := Rendered(text);
  }

  /** `value` is what getStrExpr makes of a scan that did not succeed. */
  predicate Failure(sc: Scan, value: ExprResult) {
    match sc
    case Parts(_) => false
    case Refused(e) => value == ExprError(e)
    case SlicePanic => value == ExprPanic
  }

  /** The loop of generateMatchingLabels / generateMatchingFields: the
      table of renderings, or the failure of the first selector (in the
      order the map is ranged over) that does not render. */
  method RenderSelectors(renderer: Renderer, selectors: map<string, string>, prefix: string)
    returns (labels: map<string, string>, failed: Option<ExprResult>)
    ensures failed.None? <==>
              forall k :: k in selectors && HasPrefix(k, prefix) ==> ScanWith(renderer, selectors[k], "s.target").Parts?
    ensures failed.Some? ==> exists k :: k in selectors && HasPrefix(k, prefix)
                                         && Failure(ScanWith(renderer, selectors[k], "s.target"), failed.value)
    ensures failed.None? ==> labels == MatchingOf(renderer, selectors, prefix, selectors.Keys)
  {
    labels := map[];
    var todo := selectors.Keys;
    ghost var done: set<string> := {};
    while todo != {}
      invariant todo + done == selectors.Keys && todo !! done
      invariant forall k :: k in done && HasPrefix(k, prefix) ==> ScanWith(renderer, selectors[k], "s.target").Parts?
      invariant labels == MatchingOf(renderer, selectors, prefix, done)
      decreases |todo|
    {
      var k :| k in todo;
      var next, refused := RenderSelector(renderer, selectors, prefix, k, done, labels);
      if refused.Some? {
        return labels, refused;
      }
      labels := next;
      todo, done := todo - {k}, done + {k};
    }
    assert done == selectors.Keys;
    failed := None;
  }

  /** One pass of the loop of RenderSelectors: the selector `k` is rendered
      when it is under the prefix, and its entry added to the table. */
  method RenderSelector(renderer: Renderer, selectors: map<string, string>, prefix: string, k: string,
                        ghost done: set<string>, labels: map<string, string>)
    returns (next: map<string, string>, failed: Option<ExprResult>)
    requires k in selectors && k !in done
    requires labels == MatchingOf(renderer, selectors, prefix, done)
    ensures failed.Some? ==> HasPrefix(k, prefix) && Failure(ScanWith(renderer, selectors[k], "s.target"), failed.value)
    ensures failed.None? ==> HasPrefix(k, prefix) ==> ScanWith(renderer, selectors[k], "s.target").Parts?
    ensures failed.None? ==> next == MatchingOf(renderer, selectors, prefix, done + {k})
  {
    next, failed := labels, None;
    if HasPrefix(k, prefix) {
      var value := GetStrExprWith(renderer, selectors[k], "s.target");
      if !value.Expr? {
        return labels, Some(value);
      }
      next := labels[k[|prefix|..] := value.text];
    }
    MatchingStep(renderer, selectors, prefix, done, k, labels, next);
  }

  /** An entry of the table is there exactly for a selector under the
      prefix among `keys`, and holds that selector's rendering. */
  lemma MatchingOfAt(renderer: Renderer, selectors: map<string, string>, prefix: string, keys: set<string>, k': string)
    ensures k' in MatchingOf(renderer, selectors, prefix, keys) <==> prefix + k' in keys && prefix + k' in selectors
    ensures k' in MatchingOf(renderer, selectors, prefix, keys) ==>
              MatchingOf(renderer, selectors, prefix, keys)[k'] == ExprText(ScanWith(renderer, selectors[prefix + k'], "s.target"))
  {
    var full := prefix + k';
    assert full[..|prefix|] == prefix && full[|prefix|..] == k';
  }

  /** Rendering one more selector extends the table by its entry. */
  lemma MatchingStep(renderer: Renderer, selectors: map<string, string>, prefix: string, done: set<string>, k: string,
                     before: map<string, string>, after: map<string, string>)
    requires k in selectors && k !in done
    requires before == MatchingOf(renderer, selectors, prefix, done)
    requires !HasPrefix(k, prefix) ==> after == before
    requires HasPrefix(k, prefix) ==>
               after == before[k[|prefix|..] := ExprText(ScanWith(renderer, selectors[k], "s.target"))]
    ensures after == MatchingOf(renderer, selectors, prefix, done + {k})
  {
    var m := MatchingOf(renderer, selectors, prefix, done + {k});
    forall k' | true
      ensures (k' in after <==> k' in m) && (k' in m ==> after[k'] == m[k'])
    {
      var full := prefix + k';
      MatchingOfAt(renderer, selectors, prefix, done, k');
      MatchingOfAt(renderer, selectors, prefix, done + {k}, k');
      assert full[..|prefix|] == prefix && full[|prefix|..] == k';
      if HasPrefix(k, prefix) && k' == k[|prefix|..] {
        SuffixDetermines(full, k, prefix);
      }
    }
  }
}
