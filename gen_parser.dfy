/** ParseDoc as a line-by-line state machine over values: `Feed` is what one
    line does to the parser state, `ParseLines` runs it over a document. The
    state carries the same flags, comment buffer and open declarations as
    the parser's local variables. */
module GenParser {
  import opened Seqs
  import opened GoStrings
  import opened GenModel
  import opened GenTokens

  datatype Option<T> = None | Some(value: T)

  /** Which statement the message names. */
  datatype Statement = StateBlock | ActionLine | DeclStatement | BindStatement | AliasStatement | AnyStatement

  /** "parse error: invalid <statement> at line <line>: <cause>". */
  datatype ParseError = ParseError(statement: Statement, line: nat, cause: Cause)

  datatype ParserState = ParserState(
    doc: DocValue,
    comments: seq<string>,
    lastIsEmpty: bool,
    inDecl: bool,
    inState: bool,
    inActions: bool,
    inStateDecl: bool,
    decl: Option<DeclValue>,
    stateDecl: Option<StateValue>)

  datatype DocResult = Parsed(doc: DocValue) | Failed(err: ParseError)

  /** The result of one line: go on with a new state, or stop with an error. */
  datatype Fed = Next(st: ParserState) | Stop(err: ParseError)

  const Initial: ParserState :=
    ParserState(DocValue(map[], map[], map[]), [], false, false, false, false, false, None, None)

  // ---------------------------------------------------------------------------
  // Well-formedness

  /** Every reference in a declaration resolves in the document: the target
      is a bound group-version or an alias, every state's type is an alias,
      every action parameter is a state of the declaration, and the action
      list agrees with the action table. */
  ghost predicate DeclResolves(doc: DocValue, d: DeclValue) {
    && (doc.IsGvBound(d.targetType) || doc.DoesAliasExists(d.targetType))
    && (forall s :: s in d.states ==> d.states[s].name == s && doc.DoesAliasExists(d.states[s].stateType))
    && (forall i :: 0 <= i < |d.actions| ==> forall p :: p in d.actions[i].params ==> p in d.states)
    && d.ActionsConsistent()
  }

  /** Every stored declaration is stored under its own name and resolves;
      every alias names a group-version-kind whose group-version is bound. */
  ghost predicate DocResolves(doc: DocValue) {
    && (forall n :: n in doc.decls ==> doc.decls[n].name == n && DeclResolves(doc, doc.decls[n]))
    && (forall a :: a in doc.gvkAliases ==>
          '/' !in a && ParseGvk(doc.gvkAliases[a]).Ok?
          && doc.IsGvBound(ParseGvk(doc.gvkAliases[a]).value.Gv().String()))
  }

  /** The invariant of the parser's local state. */
  ghost predicate WellFormed(st: ParserState) {
    && (st.inState ==> st.inDecl)
    && (st.inActions ==> st.inDecl)
    && !(st.inState && st.inActions)
    && (st.inStateDecl ==> st.inState)
    && (st.decl.Some? <==> st.inDecl)
    && (st.stateDecl.Some? <==> st.inStateDecl)
    && DocResolves(st.doc)
    && (st.inDecl ==> st.decl.value.name !in st.doc.decls && DeclResolves(st.doc, st.decl.value))
    && (st.inStateDecl ==> st.doc.DoesAliasExists(st.stateDecl.value.stateType))
  }

  // ---------------------------------------------------------------------------
  // One line

  /** A line inside `name type {` ... `}`: a selector `k=v` or `k`, or the
      closing bracket, which adds the state unless its name is taken. */
  function FeedStateDecl(st: ParserState, words: seq<string>, lineNo: nat): Fed
    requires |words| > 0 && st.decl.Some? && st.stateDecl.Some?
  {
    if IsEndBracket(words) then
      var (_, d) := st.decl.value.AddStateDeclaration(st.stateDecl.value);
      Next(st.(decl := Some(d), comments := [], stateDecl := None, inStateDecl := false))
    else if |words| != 1 then Stop(ParseError(StateBlock, lineNo, SizeNotMatch))
    else
      var splits := Split(words[0], '=');
      if |splits| > 2 then Stop(ParseError(StateBlock, lineNo, InvalidSelector))
      else
        var value := if |splits| == 2 then TrimSpace(splits[1]) else "";
        var (_, s) := st.stateDecl.value.AddSelector(TrimSpace(splits[0]), value);
        Next(st.(stateDecl := Some(s)))
  }

  /** A line inside `state {` ... `}`: `name type {` opens a state (a type
      `[]T` is an array of the alias T), `}` closes the block. */
  function FeedState(st: ParserState, words: seq<string>, lineNo: nat): Fed
    requires |words| > 0
  {
    if IsEndBracket(words) then Next(st.(comments := [], inState := false))
    else if |words| != 3 || !IsBeginBracket(words[2..]) then Stop(ParseError(StateBlock, lineNo, InvalidStateBlock))
    else
      var isArray := HasPrefix(words[1], "[]");
      var stateType := if isArray then words[1][2..] else words[1];
      if !st.doc.DoesAliasExists(stateType) then Stop(ParseError(StateBlock, lineNo, TypeNotFound))
      else
        Next(st.(stateDecl := Some(StateValue(st.comments, words[0], stateType, isArray, map[])),
                 comments := [], inStateDecl := true))
  }

  /** The parameters of an action: the comma-separated texts, trimmed; a
      lone empty text means no parameters. */
  function ActionParams(text: string): (params: seq<string>)
    ensures forall i :: 0 <= i < |params| ==> ',' !in params[i]
  {
    var parts := Split(text, ',');
    var params := Map(TrimSpace, parts);
    assert forall i :: 0 <= i < |params| ==> ',' !in params[i] by {
      forall i | 0 <= i < |params| ensures ',' !in params[i] {
        TrimSpaceInside(parts[i]);
      }
    }
    if |params| == 1 && params[0] == "" then [] else params
  }

  /** A trimmed text is a slice of the original. */
  lemma TrimSpaceInside(s: string)
    ensures forall c :: c in TrimSpace(s) ==> c in s
  {
    var t := s[LeadingSpaces(s)..];
    assert TrimSpace(s) == t[..|t| - TrailingSpaces(t)];
  }

  /** A line inside `action {` ... `}`: `name(params)` or the closing bracket. */
  function FeedAction(st: ParserState, line: string, words: seq<string>, lineNo: nat): Fed
    requires line != "" && |words| > 0 && st.decl.Some?
  {
    if IsEndBracket(words) then Next(st.(comments := [], inActions := false))
    else
      var open := Index(line, '(');
      if line[0] == '(' || open < 0 || line[|line| - 1] != ')' then Stop(ParseError(ActionLine, lineNo, NoCause))
      else
        var body := line[..|line| - 1];
        assert body[open] == '(';
        var splits := SplitN2(body, '(');
        if ContainsAny(splits[1], "()") then Stop(ParseError(ActionLine, lineNo, NoCause))
        else DeclareAction(st, splits[0], ActionParams(splits[1]), lineNo)
  }

  /** An action named `name` with parameter types `params`: every type must
      be a state of the open declaration, and the name must be new. */
  function DeclareAction(st: ParserState, name: string, params: seq<string>, lineNo: nat): Fed
    requires st.decl.Some?
  {
    if !(forall i :: 0 <= i < |params| ==> st.decl.value.ContainsState(params[i])) then
      Stop(ParseError(ActionLine, lineNo, TypeNotFound))
    else
      var (added, d) := st.decl.value.AddActionDeclaration(ActionDeclaration(st.comments, name, params));
      if !added then Stop(ParseError(ActionLine, lineNo, Redeclaration))
      else Next(st.(decl := Some(d), comments := []))
  }

  /** A line directly inside `decl ... {`: `state {`, `action {`, or the
      closing bracket, which stores the declaration in the document. */
  function FeedDeclBody(st: ParserState, words: seq<string>, lineNo: nat): Fed
    requires |words| > 0 && st.decl.Some?
  {
    if IsEndBracket(words) then
      var d := st.decl.value;
      Next(st.(doc := st.doc.(decls := st.doc.decls[d.name := d]), comments := [], inDecl := false, decl := None))
    else if words[0] == "state" then
      if !IsBeginBracket(words[1..]) then Stop(ParseError(DeclStatement, lineNo, InvalidStateBlock))
      else Next(st.(comments := [], inState := true))
    else if words[0] == "action" then
      if !IsBeginBracket(words[1..]) then Stop(ParseError(DeclStatement, lineNo, InvalidActionStmt))
      else Next(st.(comments := [], inActions := true))
    else Stop(ParseError(DeclStatement, lineNo, NoCause))
  }

  /** A top-level statement: `bind`, `alias` or `decl`. */
  function FeedTop(st: ParserState, words: seq<string>, lineNo: nat): Fed
    requires |words| > 0
  {
    if words[0] == "bind" then
      match ParseBind(words)
      case Fail(c) => Stop(ParseError(BindStatement, lineNo, c))
      case Ok((gv, pkg, parsed)) =>
        var (added, doc) := st.doc.AddGvBind(gv, pkg, parsed);
        if !added then Stop(ParseError(BindStatement, lineNo, Redeclaration))
        else Next(st.(doc := doc, comments := []))
    else if words[0] == "alias" then
      match ParseAlias(words)
      case Fail(c) => Stop(ParseError(AliasStatement, lineNo, c))
      case Ok((gvk, alias)) =>
        match ParseGvk(gvk)
        case Fail(c) => Stop(ParseError(AliasStatement, lineNo, c))
        case Ok(parsed) =>
          if !st.doc.IsGvBound(parsed.Gv().String()) then Stop(ParseError(AliasStatement, lineNo, TypeNotFound))
          else
            var (added, doc) := st.doc.AddGvkAliases(gvk, alias);
            if !added then Stop(ParseError(AliasStatement, lineNo, Redeclaration))
            else Next(st.(doc := doc, comments := []))
    else if words[0] == "decl" then
      match ParseDeclOpen(words)
      case Fail(c) => Stop(ParseError(DeclStatement, lineNo, c))
      case Ok((name, targetType)) =>
        if st.doc.DoesControllerManagerDeclarationExists(name) then Stop(ParseError(DeclStatement, lineNo, Redeclaration))
        else if !st.doc.IsGvBound(targetType) && !st.doc.DoesAliasExists(targetType) then
          Stop(ParseError(DeclStatement, lineNo, BindNotFound))
        else
          Next(st.(inDecl := true, decl := Some(DeclValue(st.comments, name, targetType, map[], [], map[])),
                   comments := []))
    else Stop(ParseError(AnyStatement, lineNo, NoCause))
  }

  /** A trimmed non-empty line starts with its first word. */
  lemma WordsOfLine(line: string)
    requires line != "" && !IsSpace(line[0])
    ensures |Fields(line)| > 0 && HasPrefix(line, Fields(line)[0])
    ensures HasPrefix(Fields(line)[0], "//") ==> HasPrefix(line, "//")
  {
    FirstFieldIsPrefix(line);
    var w := Fields(line)[0];
    if HasPrefix(w, "//") {
      assert line[..|w|][..2] == line[..2];
    }
  }

  /** The text of a comment line: what follows the first "//", trimmed. */
  function CommentText(line: string): string
    requires HasPrefix(line, "//")
  {
    var k := IndexOf(line, "//");
    TrimSpace(line[k + 2..])
  }

  /** The handler of a statement line, chosen by the current block. */
  function Dispatch(st: ParserState, line: string, words: seq<string>, lineNo: nat): Fed
    requires st.decl.Some? <==> st.inDecl
    requires st.stateDecl.Some? <==> st.inStateDecl
    requires line != "" && |words| > 0
  {
    if !st.inDecl then FeedTop(st, words, lineNo)
    else if st.inState then
      if st.inStateDecl then FeedStateDecl(st, words, lineNo) else FeedState(st, words, lineNo)
    else if st.inActions then FeedAction(st, line, words, lineNo)
    else FeedDeclBody(st, words, lineNo)
  }

  /** After a statement line the previous line is no longer blank. */
  function Settle(r: Fed): Fed {
    match r
    case Stop(e) => r
    case Next(st') => Next(st'.(lastIsEmpty := false))
  }

  /** One iteration of ParseDoc's loop, on line number `lineNo`. Blank lines
      only mark that a blank was seen; a comment after a blank starts a new
      comment block; anything else is dispatched on the flags. */
  function Feed(st: ParserState, raw: string, lineNo: nat): Fed
    requires st.decl.Some? <==> st.inDecl
    requires st.stateDecl.Some? <==> st.inStateDecl
  {
    var line := TrimSpace(raw);
    if line == "" then Next(st.(lastIsEmpty := true))
    else
      WordsOfLine(line);
      var words := Fields(line);
      if HasPrefix(words[0], "//") then
        var comments := if st.lastIsEmpty then [] else st.comments;
        Next(st.(comments := comments + [CommentText(line)], lastIsEmpty := false))
      else Settle(Dispatch(st, line, words, lineNo))
  }

  /** ParseDoc's loop over the first |lines| lines, numbered from 1. */
  function ParseLines(lines: seq<string>): (r: Fed)
    ensures r.Next? ==> WellFormed(r.st)
  {
    if lines == [] then Next(Initial)
    else
      match ParseLines(lines[..|lines| - 1])
      case Stop(e) => Stop(e)
      case Next(st) =>
        FeedKeepsWellFormed(st, lines[|lines| - 1], |lines|);
        Feed(st, lines[|lines| - 1], |lines|)
  }

  /** ParseDoc: the document once every line is read, or the first error.
      A declaration still open at the end is not stored. */
  function ParseDocument(lines: seq<string>): DocResult {
    match ParseLines(lines)
    case Stop(e) => Failed(e)
    case Next(st) => Parsed(st.doc)
  }

  // ---------------------------------------------------------------------------
  // The invariant is kept

  /** Resolution survives the growth of the bind and alias tables. */
  lemma DeclResolvesGrows(d1: DocValue, d2: DocValue, decl: DeclValue)
    requires Extends(d1.gvPkgBinds, d2.gvPkgBinds) && Extends(d1.gvkAliases, d2.gvkAliases)
    requires DeclResolves(d1, decl)
    ensures DeclResolves(d2, decl)
  {
    assert d1.IsGvBound(decl.targetType) ==> d2.IsGvBound(decl.targetType);
    forall s | s in decl.states ensures d2.DoesAliasExists(decl.states[s].stateType) {
      assert d1.DoesAliasExists(decl.states[s].stateType);
    }
  }

  /** A document whose bind and alias tables grow (and whose declarations
      stay) keeps resolving, provided every new alias resolves. */
  lemma DocResolvesGrows(d1: DocValue, d2: DocValue)
    requires Extends(d1.gvPkgBinds, d2.gvPkgBinds) && Extends(d1.gvkAliases, d2.gvkAliases)
    requires d2.decls == d1.decls
    requires DocResolves(d1)
    requires forall a :: a in d2.gvkAliases && a !in d1.gvkAliases ==>
               '/' !in a && ParseGvk(d2.gvkAliases[a]).Ok?
               && d2.IsGvBound(ParseGvk(d2.gvkAliases[a]).value.Gv().String())
    ensures DocResolves(d2)
  {
    forall n | n in d2.decls ensures DeclResolves(d2, d2.decls[n]) {
      DeclResolvesGrows(d1, d2, d1.decls[n]);
    }
    forall a | a in d1.gvkAliases
      ensures d2.IsGvBound(ParseGvk(d2.gvkAliases[a]).value.Gv().String())
    {
      assert d2.gvkAliases[a] == d1.gvkAliases[a];
      assert d1.IsGvBound(ParseGvk(d1.gvkAliases[a]).value.Gv().String());
    }
  }

  /** Adding a state whose type is an alias keeps a declaration resolving. */
  lemma AddStateKeepsResolves(doc: DocValue, d: DeclValue, sv: StateValue)
    requires DeclResolves(doc, d) && doc.DoesAliasExists(sv.stateType)
    ensures DeclResolves(doc, d.AddStateDeclaration(sv).1)
  {
    var d' := d.AddStateDeclaration(sv).1;
    assert d'.actions == d.actions && d'.actionMap == d.actionMap;
    assert d'.ActionsConsistent();
    forall i | 0 <= i < |d'.actions| ensures forall p :: p in d'.actions[i].params ==> p in d'.states {
      assert forall p :: p in d.actions[i].params ==> p in d.states;
    }
  }

  lemma FeedStateDeclKeepsWellFormed(st: ParserState, words: seq<string>, lineNo: nat)
    requires WellFormed(st) && st.inStateDecl && |words| > 0
    ensures FeedStateDecl(st, words, lineNo).Next? ==> WellFormed(FeedStateDecl(st, words, lineNo).st)
  {
    var r := FeedStateDecl(st, words, lineNo);
    if r.Next? {
      if IsEndBracket(words) {
        AddStateKeepsResolves(st.doc, st.decl.value, st.stateDecl.value);
        assert r.st == st.(decl := Some(st.decl.value.AddStateDeclaration(st.stateDecl.value).1),
                           comments := [], stateDecl := None, inStateDecl := false);
      } else {
        assert r.st.stateDecl.value.stateType == st.stateDecl.value.stateType;
        assert r.st == st.(stateDecl := r.st.stateDecl);
      }
    }
  }

  lemma FeedStateKeepsWellFormed(st: ParserState, words: seq<string>, lineNo: nat)
    requires WellFormed(st) && st.inState && !st.inStateDecl && |words| > 0
    ensures FeedState(st, words, lineNo).Next? ==> WellFormed(FeedState(st, words, lineNo).st)
  {
  }

  lemma FeedActionKeepsWellFormed(st: ParserState, line: string, words: seq<string>, lineNo: nat)
    requires WellFormed(st) && st.inActions && line != "" && |words| > 0
    ensures FeedAction(st, line, words, lineNo).Next? ==> WellFormed(FeedAction(st, line, words, lineNo).st)
  {
    var open := Index(line, '(');
    if !IsEndBracket(words) && !(line[0] == '(' || open < 0 || line[|line| - 1] != ')') {
      var body := line[..|line| - 1];
      assert body[open] == '(';
      var splits := SplitN2(body, '(');
      DeclareActionKeepsWellFormed(st, splits[0], ActionParams(splits[1]), lineNo);
    }
  }

  lemma DeclareActionKeepsWellFormed(st: ParserState, name: string, params: seq<string>, lineNo: nat)
    requires WellFormed(st) && st.inActions
    ensures DeclareAction(st, name, params, lineNo).Next? ==> WellFormed(DeclareAction(st, name, params, lineNo).st)
  {
    var r := DeclareAction(st, name, params, lineNo);
    if r.Next? {
      var d := st.decl.value;
      var act := ActionDeclaration(st.comments, name, params);
      AddActionKeepsConsistent(d, act);
      var d' := d.AddActionDeclaration(act).1;
      assert r.st.decl == Some(d');
      assert d'.actions == d.actions + [act];
      forall i | 0 <= i < |d'.actions| ensures forall p :: p in d'.actions[i].params ==> p in d'.states {
        if i < |d.actions| {
          assert d'.actions[i] == d.actions[i];
        } else {
          forall p | p in act.params ensures p in d'.states {
            var j :| 0 <= j < |act.params| && act.params[j] == p;
            assert d.ContainsState(act.params[j]);
          }
        }
      }
    }
  }

  lemma FeedDeclBodyKeepsWellFormed(st: ParserState, words: seq<string>, lineNo: nat)
    requires WellFormed(st) && st.inDecl && !st.inState && !st.inActions && |words| > 0
    ensures FeedDeclBody(st, words, lineNo).Next? ==> WellFormed(FeedDeclBody(st, words, lineNo).st)
  {
    if IsEndBracket(words) {
      StoreDeclKeepsResolves(st.doc, st.decl.value);
    }
  }

  /** Storing a resolving declaration under its own name keeps the document resolving. */
  lemma StoreDeclKeepsResolves(doc: DocValue, d: DeclValue)
    requires DocResolves(doc) && DeclResolves(doc, d)
    ensures DocResolves(doc.(decls := doc.decls[d.name := d]))
  {
    var doc' := doc.(decls := doc.decls[d.name := d]);
    forall n | n in doc'.decls ensures doc'.decls[n].name == n && DeclResolves(doc', doc'.decls[n]) {
      if n == d.name {
        DeclResolvesGrows(doc, doc', d);
      } else {
        DeclResolvesGrows(doc, doc', doc.decls[n]);
      }
    }
  }

  lemma FeedTopKeepsWellFormed(st: ParserState, words: seq<string>, lineNo: nat)
    requires WellFormed(st) && !st.inDecl && |words| > 0
    ensures FeedTop(st, words, lineNo).Next? ==> WellFormed(FeedTop(st, words, lineNo).st)
  {
    var r := FeedTop(st, words, lineNo);
    if r.Next? {
      if words[0] == "bind" {
        DocResolvesGrows(st.doc, r.st.doc);
      } else if words[0] == "alias" {
        var (gvk, alias) := ParseAlias(words).value;
        assert r.st.doc == st.doc.AddGvkAliases(gvk, alias).1;
        DocResolvesGrows(st.doc, r.st.doc);
      } else {
        var d := r.st.decl.value;
        assert d.actions == [] && d.states == map[] && d.actionMap == map[];
        assert d.ActionsConsistent();
      }
    }
  }

  lemma FeedKeepsWellFormed(st: ParserState, raw: string, lineNo: nat)
    requires WellFormed(st)
    ensures Feed(st, raw, lineNo).Next? ==> WellFormed(Feed(st, raw, lineNo).st)
  {
    var line := TrimSpace(raw);
    if line != "" {
      WordsOfLine(line);
      var words := Fields(line);
      if !HasPrefix(words[0], "//") {
        if !st.inDecl {
          FeedTopKeepsWellFormed(st, words, lineNo);
        } else if st.inState {
          if st.inStateDecl {
            FeedStateDeclKeepsWellFormed(st, words, lineNo);
          } else {
            FeedStateKeepsWellFormed(st, words, lineNo);
          }
        } else if st.inActions {
          FeedActionKeepsWellFormed(st, line, words, lineNo);
        } else {
          FeedDeclBodyKeepsWellFormed(st, words, lineNo);
        }
      }
    }
  }

  // ---------------------------------------------------------------------------
  // Behaviour of single lines

  /** A line that is neither blank nor a comment goes to the handler of the
      current block. */
  lemma FeedStatement(st: ParserState, raw: string, lineNo: nat, words: seq<string>)
    requires st.decl.Some? <==> st.inDecl
    requires st.stateDecl.Some? <==> st.inStateDecl
    requires Fields(TrimSpace(raw)) == words && |words| > 0 && !HasPrefix(words[0], "//")
    ensures Feed(st, raw, lineNo) == Settle(Dispatch(st, TrimSpace(raw), words, lineNo))
  {
  }

  /** A statement line outside a declaration goes to the top-level handler. */
  lemma TopLine(st: ParserState, raw: string, lineNo: nat, words: seq<string>)
    requires st.decl.Some? <==> st.inDecl
    requires st.stateDecl.Some? <==> st.inStateDecl
    requires !st.inDecl
    requires Fields(TrimSpace(raw)) == words && |words| > 0 && !HasPrefix(words[0], "//")
    ensures Feed(st, raw, lineNo) == Settle(FeedTop(st, words, lineNo))
  {
    FeedStatement(st, raw, lineNo, words);
  }

  /** A statement line in a state block, outside a state declaration, goes
      to the state handler. */
  lemma StateLine(st: ParserState, raw: string, lineNo: nat, words: seq<string>)
    requires st.decl.Some? <==> st.inDecl
    requires st.stateDecl.Some? <==> st.inStateDecl
    requires st.inDecl && st.inState && !st.inStateDecl
    requires Fields(TrimSpace(raw)) == words && |words| > 0 && !HasPrefix(words[0], "//")
    ensures Feed(st, raw, lineNo) == Settle(FeedState(st, words, lineNo))
  {
    FeedStatement(st, raw, lineNo, words);
  }

  /** A statement line in an action block goes to the action handler. */
  lemma ActionBlockLine(st: ParserState, raw: string, lineNo: nat, words: seq<string>)
    requires st.decl.Some? <==> st.inDecl
    requires st.stateDecl.Some? <==> st.inStateDecl
    requires st.inDecl && !st.inState && st.inActions
    requires Fields(TrimSpace(raw)) == words && |words| > 0 && !HasPrefix(words[0], "//")
    ensures TrimSpace(raw) != ""
    ensures Feed(st, raw, lineNo) == Settle(FeedAction(st, TrimSpace(raw), words, lineNo))
  {
    FeedStatement(st, raw, lineNo, words);
  }

  /** A line whose first word starts with "//" adds to the comment buffer. */
  lemma FeedComment(st: ParserState, raw: string, lineNo: nat)
    requires st.decl.Some? <==> st.inDecl
    requires st.stateDecl.Some? <==> st.inStateDecl
    requires TrimSpace(raw) != "" && |Fields(TrimSpace(raw))| > 0 && HasPrefix(Fields(TrimSpace(raw))[0], "//")
    ensures HasPrefix(TrimSpace(raw), "//")
    ensures Feed(st, raw, lineNo)
            == Next(st.(comments := (if st.lastIsEmpty then [] else st.comments) + [CommentText(TrimSpace(raw))],
                        lastIsEmpty := false))
  {
    WordsOfLine(TrimSpace(raw));
  }

  /** Blank lines change nothing but the blank-line mark; in particular the
      comment buffer survives them. */
  lemma BlankLineSkipped(st: ParserState, raw: string, lineNo: nat)
    requires WellFormed(st) && AllSpace(raw)
    ensures Feed(st, raw, lineNo) == Next(st.(lastIsEmpty := true))
  {
  }

  /** A line starting with two non-spaces has a first word of at least two
      characters. */
  lemma {:induction false} WordOfTwo(line: string)
    requires |line| >= 2 && !IsSpace(line[0]) && !IsSpace(line[1])
    ensures WordLength(line) >= 2
  {
    assert WordLength(line) == 1 + WordLength(line[1..]);
    assert line[1..][0] == line[1];
  }

  /** The first word of a line that starts with "//" starts with "//" too. */
  lemma CommentWords(line: string)
    requires HasPrefix(line, "//")
    ensures |Fields(line)| > 0 && HasPrefix(Fields(line)[0], "//")
  {
    assert line[..2] == "//";
    assert line[0] == '/' && line[1] == '/';
    FirstField(line);
    WordOfTwo(line);
    var w := Fields(line)[0];
    assert w == line[..WordLength(line)];
    assert w[..2] == line[..2];
  }

  /** The comment text of a line starting with "//" is the rest of the line,
      trimmed. */
  lemma CommentTextOfLine(line: string)
    requires HasPrefix(line, "//")
    ensures CommentText(line) == TrimSpace(line[2..])
  {
    assert IndexOf(line, "//") == 0;
  }

  /** A comment line appends its text to the buffer, or starts a new buffer
      when the previous line was blank. */
  lemma CommentLine(st: ParserState, raw: string, lineNo: nat)
    requires WellFormed(st) && HasPrefix(TrimSpace(raw), "//")
    ensures var line := TrimSpace(raw);
            Feed(st, raw, lineNo)
            == Next(st.(comments := (if st.lastIsEmpty then [] else st.comments) + [TrimSpace(line[2..])],
                        lastIsEmpty := false))
  {
    CommentWords(TrimSpace(raw));
    CommentTextOfLine(TrimSpace(raw));
    FeedComment(st, raw, lineNo);
  }

  /** On a `bind` line, a group-version that is already bound is a
      redeclaration. (TopLine carries this over to Feed.) */
  lemma BindRedeclared(st: ParserState, gv: string, pkg: string, lineNo: nat)
    requires ParseGv(gv).Ok? && gv in st.doc.gvPkgBinds
    ensures FeedTop(st, ["bind", gv, pkg], lineNo) == Stop(ParseError(BindStatement, lineNo, Redeclaration))
  {
    assert ParseBind(["bind", gv, pkg]) == Ok((gv, pkg, ParseGv(gv).value));
  }

  /** On an `alias` line, an alias whose group-version is unbound is refused,
      and so is a repeated alias; otherwise it is added. (TopLine carries
      this over to Feed.) */
  lemma AliasNeedsBoundGv(st: ParserState, alias: string, gvk: string, lineNo: nat)
    requires '/' !in alias && ParseGvk(gvk).Ok?
    ensures var r := FeedTop(st, ["alias", alias, gvk], lineNo);
            && (!st.doc.IsGvBound(ParseGvk(gvk).value.Gv().String()) ==>
                  r == Stop(ParseError(AliasStatement, lineNo, TypeNotFound)))
            && (st.doc.IsGvBound(ParseGvk(gvk).value.Gv().String()) && alias in st.doc.gvkAliases ==>
                  r == Stop(ParseError(AliasStatement, lineNo, Redeclaration)))
            && (st.doc.IsGvBound(ParseGvk(gvk).value.Gv().String()) && alias !in st.doc.gvkAliases ==>
                  r == Next(st.(doc := st.doc.(gvkAliases := st.doc.gvkAliases[alias := gvk]), comments := [])))
  {
    assert ParseAlias(["alias", alias, gvk]) == Ok((gvk, alias));
  }

  /** A decl line opens a declaration with the pending comments, unless its
      name is taken or its target is neither a bound group-version nor an
      alias. (TopLine carries this over to Feed.) */
  lemma DeclOpens(st: ParserState, name: string, target: string, lineNo: nat)
    ensures var r := FeedTop(st, ["decl", name, "for", target, "{"], lineNo);
            && (name in st.doc.decls ==> r == Stop(ParseError(DeclStatement, lineNo, Redeclaration)))
            && (name !in st.doc.decls && !st.doc.IsGvBound(target) && !st.doc.DoesAliasExists(target) ==>
                  r == Stop(ParseError(DeclStatement, lineNo, BindNotFound)))
            && (name !in st.doc.decls && (st.doc.IsGvBound(target) || st.doc.DoesAliasExists(target)) ==>
                  r == Next(st.(inDecl := true, decl := Some(DeclValue(st.comments, name, target, map[], [], map[])),
                                comments := [])))
  {
    var words := ["decl", name, "for", target, "{"];
    assert words[0] != "bind" && words[0] != "alias";
    assert ParseDeclOpen(words) == Ok((name, target));
  }

  /** A state line `name []T {` opens an array state of the alias T. */
  lemma ArrayStateOpens(st: ParserState, raw: string, lineNo: nat, name: string, t: string)
    requires WellFormed(st) && st.inState && !st.inStateDecl
    requires Fields(TrimSpace(raw)) == [name, "[]" + t, "{"] && !HasPrefix(name, "//")
    ensures !st.doc.DoesAliasExists(t) ==>
              Feed(st, raw, lineNo) == Stop(ParseError(StateBlock, lineNo, TypeNotFound))
    ensures st.doc.DoesAliasExists(t) ==>
              Feed(st, raw, lineNo)
              == Next(st.(stateDecl := Some(StateValue(st.comments, name, t, true, map[])),
                          comments := [], inStateDecl := true, lastIsEmpty := false))
  {
    StateLine(st, raw, lineNo, [name, "[]" + t, "{"]);
    assert HasPrefix("[]" + t, "[]");
    assert ("[]" + t)[2..] == t;
  }

  /** How a selector word `k=v` splits at '=', when k holds no '='. */
  lemma SelectorWord(k: string, v: string)
    requires '=' !in k && NoSpace(k + "=" + v)
    ensures !IsEndBracket([k + "=" + v])
    ensures '=' in v ==> |Split(k + "=" + v, '=')| > 2
    ensures '=' !in v ==> Split(k + "=" + v, '=') == [k, v] && TrimSpace(k) == k && TrimSpace(v) == v
  {
    var w := k + "=" + v;
    assert w == k + ['='] + v;
    assert !IsEndBracket([w]) by {
      assert |w| == 1 ==> w[0] == '=';
    }
    SplitPrefix(k, v, '=');
    SplitCount(v, '=');
    if '=' !in v {
      SplitFree(v, '=');
      assert NoSpace(k) && NoSpace(v) by {
        assert forall i :: 0 <= i < |k| ==> k[i] == w[i];
        assert forall i :: 0 <= i < |v| ==> v[i] == w[|k| + 1 + i];
      }
    }
  }

  /** The state-body handler on a selector word `k=v`. */
  lemma SelectorDecl(st: ParserState, k: string, v: string, lineNo: nat)
    requires st.decl.Some? && st.stateDecl.Some?
    requires '=' !in k && NoSpace(k + "=" + v)
    ensures '=' in v ==> FeedStateDecl(st, [k + "=" + v], lineNo) == Stop(ParseError(StateBlock, lineNo, InvalidSelector))
    ensures '=' !in v ==>
              FeedStateDecl(st, [k + "=" + v], lineNo)
              == Next(st.(stateDecl := Some(st.stateDecl.value.AddSelector(k, v).1)))
  {
    SelectorWord(k, v);
  }

  /** A selector word `k=v` adds (k, v) unless k is already a selector, in
      which case the first value stays; a word with two '=' is an error. */
  lemma SelectorLine(st: ParserState, raw: string, lineNo: nat, k: string, v: string)
    requires WellFormed(st) && st.inStateDecl
    requires Fields(TrimSpace(raw)) == [k + "=" + v] && !HasPrefix(k + "=" + v, "//")
    requires '=' !in k
    ensures '=' in v ==> Feed(st, raw, lineNo) == Stop(ParseError(StateBlock, lineNo, InvalidSelector))
    ensures '=' !in v ==>
              Feed(st, raw, lineNo)
              == Next(st.(stateDecl := Some(st.stateDecl.value.AddSelector(k, v).1), lastIsEmpty := false))
  {
    var w := k + "=" + v;
    FeedStatement(st, raw, lineNo, [w]);
    assert NoSpace(Fields(TrimSpace(raw))[0]);
    SelectorDecl(st, k, v, lineNo);
  }

  /** Closing a state whose name is already declared keeps the first state,
      silently. */
  lemma DuplicateStateDropped(st: ParserState, raw: string, lineNo: nat)
    requires WellFormed(st) && st.inStateDecl
    requires Fields(TrimSpace(raw)) == ["}"]
    requires st.stateDecl.value.name in st.decl.value.states
    ensures Feed(st, raw, lineNo)
            == Next(st.(comments := [], stateDecl := None, inStateDecl := false, lastIsEmpty := false))
  {
    FeedStatement(st, raw, lineNo, ["}"]);
  }

  /** How `name()` reads as an action line: an opening parenthesis right
      after the name, and an empty parameter list. */
  lemma CallWithoutArgs(name: string)
    requires name != "" && '(' !in name && ')' !in name
    ensures var line := name + "()";
            && line[0] != '(' && line[|line| - 1] == ')' && !IsEndBracket([line])
            && Index(line, '(') == |name|
            && SplitN2(line[..|line| - 1], '(') == [name, ""]
            && !ContainsAny("", "()") && ActionParams("") == []
  {
    var line := name + "()";
    assert line[|line| - 1] == ')';
    assert line[|name|] == '(' && forall i :: 0 <= i < |name| ==> line[i] == name[i];
    var body := line[..|line| - 1];
    assert body == name + "(";
    assert body[..|name|] == name;
    assert Split("", ',') == [""];
    assert Map(TrimSpace, [""]) == [""];
  }

  /** The action handler on `name()`. */
  lemma FeedActionWithoutParams(st: ParserState, name: string, lineNo: nat)
    requires st.decl.Some? && name != "" && '(' !in name && ')' !in name
    ensures var line := name + "()";
            FeedAction(st, line, [line], lineNo) == DeclareAction(st, name, [], lineNo)
  {
    CallWithoutArgs(name);
  }

  /** An action `name()` declares an action without parameters, unless the
      name is already declared. */
  lemma ActionWithoutParams(st: ParserState, raw: string, lineNo: nat, name: string)
    requires WellFormed(st) && st.inActions
    requires TrimSpace(raw) == name + "()"
    requires name != "" && NoSpace(name) && '(' !in name && ')' !in name && !HasPrefix(name, "//")
    ensures name in st.decl.value.actionMap ==>
              Feed(st, raw, lineNo) == Stop(ParseError(ActionLine, lineNo, Redeclaration))
    ensures name !in st.decl.value.actionMap ==>
              Feed(st, raw, lineNo)
              == Next(st.(decl := Some(st.decl.value.AddActionDeclaration(ActionDeclaration(st.comments, name, [])).1),
                          comments := [], lastIsEmpty := false))
  {
    var line := name + "()";
    CallIsOneWord(name);
    ActionBlockLine(st, raw, lineNo, [line]);
    FeedActionWithoutParams(st, name, lineNo);
    DeclareWithoutParams(st, name, lineNo);
  }

  /** `name()` is a single word that does not start a comment. */
  lemma CallIsOneWord(name: string)
    requires name != "" && NoSpace(name) && !HasPrefix(name, "//")
    ensures Fields(name + "()") == [name + "()"] && !HasPrefix(name + "()", "//")
  {
    var line := name + "()";
    assert NoSpace(line);
    FieldsOfWord(line);
    if |name| >= 2 {
      assert line[..2] == name[..2];
    } else {
      assert line[1] == '(';
    }
  }

  /** Declaring an action without parameters fails only on a known name. */
  lemma DeclareWithoutParams(st: ParserState, name: string, lineNo: nat)
    requires st.decl.Some?
    ensures var d := st.decl.value;
            DeclareAction(st, name, [], lineNo)
            == if name in d.actionMap then Stop(ParseError(ActionLine, lineNo, Redeclaration))
               else Next(st.(decl := Some(d.AddActionDeclaration(ActionDeclaration(st.comments, name, [])).1),
                             comments := []))
  {
    var act := ActionDeclaration(st.comments, name, []);
    assert act.name == name;
  }

  /** A line in an action block without '(' is refused. */
  lemma ActionWithoutParenthesis(st: ParserState, raw: string, lineNo: nat)
    requires WellFormed(st) && st.inActions
    requires TrimSpace(raw) != "" && '(' !in TrimSpace(raw)
    requires !IsEndBracket(Fields(TrimSpace(raw))) && !HasPrefix(Fields(TrimSpace(raw))[0], "//")
    ensures Feed(st, raw, lineNo) == Stop(ParseError(ActionLine, lineNo, NoCause))
  {
    var line := TrimSpace(raw);
    WordsOfLine(line);
    ActionBlockLine(st, raw, lineNo, Fields(line));
    assert Index(line, '(') < 0;
  }

  /** A statement line inside a state declaration goes to the selector
      handler. */
  lemma StateDeclLine(st: ParserState, raw: string, lineNo: nat, words: seq<string>)
    requires WellFormed(st) && st.inStateDecl
    requires Fields(TrimSpace(raw)) == words && |words| > 0 && !HasPrefix(words[0], "//")
    ensures Feed(st, raw, lineNo) == Settle(FeedStateDecl(st, words, lineNo))
  {
    FeedStatement(st, raw, lineNo, words);
  }

  /** A line of more than one word inside a state declaration is refused:
      a selector is a single word. */
  lemma SelectorLineSize(st: ParserState, raw: string, lineNo: nat)
    requires WellFormed(st) && st.inStateDecl
    requires |Fields(TrimSpace(raw))| > 1 && !HasPrefix(Fields(TrimSpace(raw))[0], "//")
    ensures Feed(st, raw, lineNo) == Stop(ParseError(StateBlock, lineNo, SizeNotMatch))
  {
    StateDeclLine(st, raw, lineNo, Fields(TrimSpace(raw)));
  }

  /** A selector word without '=' adds the key with an empty value, unless
      the key is already a selector. */
  lemma BareSelectorLine(st: ParserState, raw: string, lineNo: nat, k: string)
    requires WellFormed(st) && st.inStateDecl
    requires Fields(TrimSpace(raw)) == [k] && !HasPrefix(k, "//")
    requires '=' !in k && k != "}"
    ensures Feed(st, raw, lineNo)
            == Next(st.(stateDecl := Some(st.stateDecl.value.AddSelector(k, "").1), lastIsEmpty := false))
  {
    StateDeclLine(st, raw, lineNo, [k]);
    assert NoSpace(Fields(TrimSpace(raw))[0]);
    SplitFree(k, '=');
    assert TrimSpace(k) == k;
  }

  /** How `name(args)` reads as an action line: the name before the first
      '(' and the arguments up to the closing ')'. */
  lemma CallWithArgs(name: string, args: string)
    requires name != "" && '(' !in name
    ensures var line := name + "(" + args + ")";
            && line[0] != '(' && line[|line| - 1] == ')'
            && Index(line, '(') == |name|
            && SplitN2(line[..|line| - 1], '(') == [name, args]
  {
    var line := name + "(" + args + ")";
    assert line[0] == name[0];
    var body := line[..|line| - 1];
    assert body == name + ("(" + args);
    IndexAfter(name, "(" + args, '(');
    IndexAfter(name, "(" + args + ")", '(');
    assert line == name + ("(" + args + ")");
    assert body[..|name|] == name && body[|name| + 1..] == args;
  }

  /** The action handler on `name(args)`: arguments holding a parenthesis
      are refused, and any other arguments go on to the declaration. */
  lemma FeedActionCall(st: ParserState, name: string, args: string, words: seq<string>, lineNo: nat)
    requires st.decl.Some? && name != "" && '(' !in name && |words| > 0 && !IsEndBracket(words)
    ensures var line := name + "(" + args + ")";
            && ('(' in args || ')' in args ==> FeedAction(st, line, words, lineNo) == Stop(ParseError(ActionLine, lineNo, NoCause)))
            && ('(' !in args && ')' !in args ==> FeedAction(st, line, words, lineNo) == DeclareAction(st, name, ActionParams(args), lineNo))
  {
    CallWithArgs(name, args);
    if '(' in args || ')' in args {
      var j :| 0 <= j < |args| && args[j] in "()";
      assert ContainsAny(args, "()");
    }
  }

  /** An action line that starts with '(' or does not end with ')' is
      refused. */
  lemma ActionLineMalformed(st: ParserState, raw: string, lineNo: nat)
    requires WellFormed(st) && st.inActions
    requires TrimSpace(raw) != ""
    requires !IsEndBracket(Fields(TrimSpace(raw))) && !HasPrefix(Fields(TrimSpace(raw))[0], "//")
    requires TrimSpace(raw)[0] == '(' || TrimSpace(raw)[|TrimSpace(raw)| - 1] != ')'
    ensures Feed(st, raw, lineNo) == Stop(ParseError(ActionLine, lineNo, NoCause))
  {
    var line := TrimSpace(raw);
    WordsOfLine(line);
    ActionBlockLine(st, raw, lineNo, Fields(line));
    FeedActionMalformed(st, line, Fields(line), lineNo);
  }

  lemma FeedActionMalformed(st: ParserState, line: string, words: seq<string>, lineNo: nat)
    requires st.decl.Some? && line != "" && |words| > 0 && !IsEndBracket(words)
    requires line[0] == '(' || line[|line| - 1] != ')'
    ensures FeedAction(st, line, words, lineNo) == Stop(ParseError(ActionLine, lineNo, NoCause))
  {
  }

  /** An action line whose arguments hold a parenthesis is refused. */
  lemma NestedParenthesesRefused(st: ParserState, raw: string, lineNo: nat, name: string, args: string)
    requires WellFormed(st) && st.inActions
    requires TrimSpace(raw) == name + "(" + args + ")" && name != "" && '(' !in name
    requires '(' in args || ')' in args
    requires !IsEndBracket(Fields(TrimSpace(raw))) && !HasPrefix(Fields(TrimSpace(raw))[0], "//")
    ensures Feed(st, raw, lineNo) == Stop(ParseError(ActionLine, lineNo, NoCause))
  {
    var line := TrimSpace(raw);
    WordsOfLine(line);
    ActionBlockLine(st, raw, lineNo, Fields(line));
    FeedActionCall(st, name, args, Fields(line), lineNo);
  }

  /** Declaring an action fails when a parameter is not a state of the open
      declaration, then when the name is taken, and otherwise appends it. */
  lemma DeclareActionCases(st: ParserState, name: string, params: seq<string>, lineNo: nat)
    requires st.decl.Some?
    ensures var d := st.decl.value;
            && ((exists i :: 0 <= i < |params| && !d.ContainsState(params[i])) ==>
                  DeclareAction(st, name, params, lineNo) == Stop(ParseError(ActionLine, lineNo, TypeNotFound)))
            && ((forall i :: 0 <= i < |params| ==> d.ContainsState(params[i])) ==>
                  DeclareAction(st, name, params, lineNo)
                  == if name in d.actionMap then Stop(ParseError(ActionLine, lineNo, Redeclaration))
                     else Next(st.(decl := Some(d.AddActionDeclaration(ActionDeclaration(st.comments, name, params)).1),
                                   comments := [])))
  {
    var act := ActionDeclaration(st.comments, name, params);
    assert act.name == name;
  }

  /** An action line with a parameter that is not a state of the open
      declaration is refused with TypeNotFound. */
  lemma UndeclaredParamRefused(st: ParserState, raw: string, lineNo: nat, name: string, args: string, p: string)
    requires WellFormed(st) && st.inActions
    requires TrimSpace(raw) == name + "(" + args + ")" && name != "" && '(' !in name
    requires '(' !in args && ')' !in args
    requires !IsEndBracket(Fields(TrimSpace(raw))) && !HasPrefix(Fields(TrimSpace(raw))[0], "//")
    requires p in ActionParams(args) && !st.decl.value.ContainsState(p)
    ensures Feed(st, raw, lineNo) == Stop(ParseError(ActionLine, lineNo, TypeNotFound))
  {
    var line := TrimSpace(raw);
    WordsOfLine(line);
    ActionBlockLine(st, raw, lineNo, Fields(line));
    FeedActionCall(st, name, args, Fields(line), lineNo);
    var i :| 0 <= i < |ActionParams(args)| && ActionParams(args)[i] == p;
    DeclareActionCases(st, name, ActionParams(args), lineNo);
  }

  // ---------------------------------------------------------------------------
  // Behaviour over a document

  /** A top-level statement only grows the bind and alias tables. */
  lemma FeedTopGrows(st: ParserState, words: seq<string>, lineNo: nat)
    requires |words| > 0
    ensures FeedTop(st, words, lineNo).Next? ==>
              && Grows(st.doc, FeedTop(st, words, lineNo).st.doc)
              && FeedTop(st, words, lineNo).st.doc.decls == st.doc.decls
  {
    var r := FeedTop(st, words, lineNo);
    if r.Next? {
      if words[0] == "bind" {
        var (gv, pkg, parsed) := ParseBind(words).value;
        assert r.st.doc == st.doc.AddGvBind(gv, pkg, parsed).1;
      } else if words[0] == "alias" {
        var (gvk, alias) := ParseAlias(words).value;
        assert r.st.doc == st.doc.AddGvkAliases(gvk, alias).1;
      }
    }
  }

  lemma FeedStateDeclKeepsDoc(st: ParserState, words: seq<string>, lineNo: nat)
    requires st.inStateDecl && st.decl.Some? && st.stateDecl.Some? && |words| > 0
    ensures FeedStateDecl(st, words, lineNo).Next? ==> FeedStateDecl(st, words, lineNo).st.doc == st.doc
  {
  }

  lemma FeedStateKeepsDoc(st: ParserState, words: seq<string>, lineNo: nat)
    requires st.decl.Some? && |words| > 0
    ensures FeedState(st, words, lineNo).Next? ==> FeedState(st, words, lineNo).st.doc == st.doc
  {
  }

  lemma FeedActionKeepsDoc(st: ParserState, line: string, words: seq<string>, lineNo: nat)
    requires st.decl.Some? && line != "" && |words| > 0
    ensures FeedAction(st, line, words, lineNo).Next? ==> FeedAction(st, line, words, lineNo).st.doc == st.doc
  {
  }

  /** The closing bracket of a declaration stores it under its name; nothing
      else in a declaration body touches the document. */
  lemma FeedDeclBodyStores(st: ParserState, words: seq<string>, lineNo: nat)
    requires st.decl.Some? && |words| > 0 && st.decl.value.name !in st.doc.decls
    ensures var r := FeedDeclBody(st, words, lineNo);
            r.Next? ==> if IsEndBracket(words)
                        then !r.st.inDecl && r.st.doc == st.doc.(decls := st.doc.decls[st.decl.value.name := st.decl.value])
                        else r.st.doc == st.doc
  {
  }

  /** Every handler only grows the document, and only the closing bracket
      of a declaration changes its declarations. */
  lemma DispatchGrows(st: ParserState, line: string, words: seq<string>, lineNo: nat)
    requires WellFormed(st) && line != "" && |words| > 0
    ensures Dispatch(st, line, words, lineNo).Next? ==> Grows(st.doc, Dispatch(st, line, words, lineNo).st.doc)
    ensures Dispatch(st, line, words, lineNo).Next? && Dispatch(st, line, words, lineNo).st.doc.decls != st.doc.decls ==>
              && st.inDecl && !st.inState && !st.inActions && !Dispatch(st, line, words, lineNo).st.inDecl
              && Dispatch(st, line, words, lineNo).st.doc.decls == st.doc.decls[st.decl.value.name := st.decl.value]
  {
    if !st.inDecl {
      FeedTopGrows(st, words, lineNo);
    } else if st.inState {
      if st.inStateDecl {
        FeedStateDeclKeepsDoc(st, words, lineNo);
      } else {
        FeedStateKeepsDoc(st, words, lineNo);
      }
    } else if st.inActions {
      FeedActionKeepsDoc(st, line, words, lineNo);
    } else {
      FeedDeclBodyStores(st, words, lineNo);
    }
  }

  /** The document only grows, and its declarations change only when the
      closing bracket of a declaration stores it under its name. */
  lemma FeedGrows(st: ParserState, raw: string, lineNo: nat)
    requires WellFormed(st)
    ensures Feed(st, raw, lineNo).Next? ==> Grows(st.doc, Feed(st, raw, lineNo).st.doc)
    ensures Feed(st, raw, lineNo).Next? && Feed(st, raw, lineNo).st.doc.decls != st.doc.decls ==>
              && st.inDecl && !st.inState && !st.inActions && !Feed(st, raw, lineNo).st.inDecl
              && Feed(st, raw, lineNo).st.doc.decls == st.doc.decls[st.decl.value.name := st.decl.value]
  {
    var line := TrimSpace(raw);
    if line != "" {
      WordsOfLine(line);
      var words := Fields(line);
      if !HasPrefix(words[0], "//") {
        FeedStatement(st, raw, lineNo, words);
        DispatchGrows(st, line, words, lineNo);
      }
    }
  }

  /** Once a line fails, the parse fails with that error whatever follows. */
  lemma {:induction false} StopIsFinal(lines: seq<string>, k: nat)
    requires k <= |lines| && ParseLines(lines[..k]).Stop?
    ensures ParseLines(lines) == ParseLines(lines[..k])
    decreases |lines|
  {
    if k < |lines| {
      var init := lines[..|lines| - 1];
      assert init[..k] == lines[..k];
      StopIsFinal(init, k);
    } else {
      assert lines[..k] == lines;
    }
  }

  /** Parsing more lines only adds to the document. */
  lemma {:induction false} ParseLinesGrows(lines: seq<string>, k: nat)
    requires k <= |lines| && ParseLines(lines).Next?
    ensures ParseLines(lines[..k]).Next?
    ensures Grows(ParseLines(lines[..k]).st.doc, ParseLines(lines).st.doc)
    decreases |lines|
  {
    if k < |lines| {
      var init := lines[..|lines| - 1];
      assert init[..k] == lines[..k];
      ParseLinesGrows(init, k);
      FeedGrows(ParseLines(init).st, lines[|lines| - 1], |lines|);
    } else {
      assert lines[..k] == lines;
    }
  }

  /** A parsed document resolves: every action parameter is a state of its
      declaration, every state type and decl target resolves, every alias's
      group-version is bound. A declaration left open at the end is not in it. */
  lemma ParsedDocumentResolves(lines: seq<string>)
    ensures ParseDocument(lines).Parsed? ==> DocResolves(ParseDocument(lines).doc)
    ensures ParseLines(lines).Next? && ParseLines(lines).st.inDecl ==>
              ParseLines(lines).st.decl.value.name !in ParseDocument(lines).doc.decls
  {
  }
}
