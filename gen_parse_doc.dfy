/** ParseDoc as written: one pass over the lines that updates the document,
    the open declaration and the open state in place. The parser's local
    variables are the fields of `DocParser`; each method handles one kind of
    line and is proved to do what the matching handler of `GenParser` does
    to the abstract state. */
module GenParseDoc {
  import opened GoStrings
  import opened GenModel
  import opened GenTokens
  import opened GenParser

  class DocParser {
    var doc: ControllerManagerDocument
    var comments: seq<string>
    var lastIsEmpty: bool
    var inDecl: bool
    var inState: bool
    var inActions: bool
    var inStateDecl: bool
    var decl: ControllerManagerDeclaration?
    var stateDecl: StateDeclaration?

    /** A declaration is open exactly while `inDecl`, a state exactly while
        `inStateDecl`. */
    ghost predicate Valid()
      reads this
    {
      && (decl != null <==> inDecl)
      && (stateDecl != null <==> inStateDecl)
    }

    /** The abstract parser state these variables stand for. */
    function State(): ParserState
      reads this, doc, decl, stateDecl
    {
      ParserState(doc.Snapshot(), comments, lastIsEmpty, inDecl, inState, inActions, inStateDecl,
                  if decl == null then None else Some(decl.Snapshot()),
                  if stateDecl == null then None else Some(stateDecl.Snapshot()))
    }

    /** What a handler's error (or its absence) means for the abstract state. */
    function AsFed(err: Option<ParseError>): Fed
      reads this, doc, decl, stateDecl
    {
      if err.Some? then Stop(err.value) else Next(State())
    }

    constructor ()
      ensures Valid() && State() == Initial && fresh(doc)
    {
      doc := new ControllerManagerDocument();
      comments := [];
      lastIsEmpty, inDecl, inState, inActions, inStateDecl := false, false, false, false, false;
      decl, stateDecl := null, null;
    }

    /** bind, alias and decl statements outside a declaration. */
    method TopStatement(words: seq<string>, lineNo: nat) returns (err: Option<ParseError>)
      requires Valid() && !inDecl && |words| > 0
      modifies this, doc
      ensures AsFed(err) == FeedTop(old(State()), words, lineNo)
      ensures err.None? ==> Valid()
      ensures doc == old(doc) && stateDecl == old(stateDecl) && (decl == null || fresh(decl))
    {
      if words[0] == "bind" {
        var parsed := ParseBind(words);
        if parsed.Fail? {
          return Some(ParseError(BindStatement, lineNo, parsed.cause));
        }
        var (gv, pkg, gvParsed) := parsed.value;
        var added := doc.AddGvBind(gv, pkg, gvParsed);
        if !added {
          return Some(ParseError(BindStatement, lineNo, Redeclaration));
        }
        comments := [];
      } else if words[0] == "alias" {
        var parsed := ParseAlias(words);
        if parsed.Fail? {
          return Some(ParseError(AliasStatement, lineNo, parsed.cause));
        }
        var (gvk, alias) := parsed.value;
        var gvkParsed := ParseGvk(gvk);
        if gvkParsed.Fail? {
          return Some(ParseError(AliasStatement, lineNo, gvkParsed.cause));
        }
        if !doc.Snapshot().IsGvBound(gvkParsed.value.Gv().String()) {
          return Some(ParseError(AliasStatement, lineNo, TypeNotFound));
        }
        var added := doc.AddGvkAliases(gvk, alias);
        if !added {
          return Some(ParseError(AliasStatement, lineNo, Redeclaration));
        }
        comments := [];
      } else if words[0] == "decl" {
        var parsed := ParseDeclOpen(words);
        if parsed.Fail? {
          return Some(ParseError(DeclStatement, lineNo, parsed.cause));
        }
        var (name, targetType) := parsed.value;
        if doc.Snapshot().DoesControllerManagerDeclarationExists(name) {
          return Some(ParseError(DeclStatement, lineNo, Redeclaration));
        }
        if !doc.Snapshot().IsGvBound(targetType) && !doc.Snapshot().DoesAliasExists(targetType) {
          return Some(ParseError(DeclStatement, lineNo, BindNotFound));
        }
        inDecl := true;
        decl := new ControllerManagerDeclaration(comments, name, targetType);
        comments := [];
      } else {
        return Some(ParseError(AnyStatement, lineNo, NoCause));
      }
      return None;
    }

    /** The body of a declaration: its closing bracket, `state {` or `action {`. */
    method DeclBodyStatement(words: seq<string>, lineNo: nat) returns (err: Option<ParseError>)
      requires Valid() && inDecl && !inState && !inActions && |words| > 0
      modifies this, doc
      ensures AsFed(err) == FeedDeclBody(old(State()), words, lineNo)
      ensures err.None? ==> Valid()
      ensures doc == old(doc) && stateDecl == old(stateDecl) && (decl == null || decl == old(decl))
    {
      if IsEndBracket(words) {
        doc.StoreDecl(decl.Snapshot());
        comments := [];
        inDecl := false;
        decl := null;
      } else if words[0] == "state" {
        if !IsBeginBracket(words[1..]) {
          return Some(ParseError(DeclStatement, lineNo, InvalidStateBlock));
        }
        comments := [];
        inState := true;
      } else if words[0] == "action" {
        if !IsBeginBracket(words[1..]) {
          return Some(ParseError(DeclStatement, lineNo, InvalidActionStmt));
        }
        comments := [];
        inActions := true;
      } else {
        return Some(ParseError(DeclStatement, lineNo, NoCause));
      }
      return None;
    }

    /** A line of a state block: `name T {`, `name []T {` or the closing bracket. */
    method StateStatement(words: seq<string>, lineNo: nat) returns (err: Option<ParseError>)
      requires Valid() && inDecl && inState && !inStateDecl && |words| > 0
      modifies this
      ensures AsFed(err) == FeedState(old(State()), words, lineNo)
      ensures err.None? ==> Valid()
      ensures doc == old(doc) && decl == old(decl) && (stateDecl == null || fresh(stateDecl))
    {
      if IsEndBracket(words) {
        comments := [];
        inState := false;
      } else {
        if |words| != 3 || !IsBeginBracket(words[2..]) {
          return Some(ParseError(StateBlock, lineNo, InvalidStateBlock));
        }
        var stateType := words[1];
        var isArray := HasPrefix(stateType, "[]");
        if isArray {
          stateType := stateType[2..];
        }
        if !doc.Snapshot().DoesAliasExists(stateType) {
          return Some(ParseError(StateBlock, lineNo, TypeNotFound));
        }
        stateDecl := new StateDeclaration(comments, words[0], stateType, isArray);
        comments := [];
        inStateDecl := true;
      }
      return None;
    }

    /** A line inside a state's braces: a `key=value` selector or the
        closing bracket, which adds the state to the declaration. */
    method StateDeclStatement(words: seq<string>, lineNo: nat) returns (err: Option<ParseError>)
      requires Valid() && inDecl && inState && inStateDecl && |words| > 0
      modifies this, decl, stateDecl
      ensures AsFed(err) == FeedStateDecl(old(State()), words, lineNo)
      ensures err.None? ==> Valid()
      ensures doc == old(doc) && decl == old(decl) && (stateDecl == null || stateDecl == old(stateDecl))
    {
      if IsEndBracket(words) {
        var _ := decl.AddStateDeclaration(stateDecl.Snapshot());
        comments := [];
        stateDecl := null;
        inStateDecl := false;
      } else {
        if |words| != 1 {
          return Some(ParseError(StateBlock, lineNo, SizeNotMatch));
        }
        var splits := Split(words[0], '=');
        if |splits| > 2 {
          return Some(ParseError(StateBlock, lineNo, InvalidSelector));
        } else if |splits| == 2 {
          var _ := stateDecl.AddSelector(TrimSpace(splits[0]), TrimSpace(splits[1]));
        } else {
          var _ := stateDecl.AddSelector(TrimSpace(splits[0]), "");
        }
      }
      return None;
    }

    /** Whether every parameter names a state of the open declaration. */
    method StatesDeclared(params: seq<string>) returns (ok: bool)
      requires decl != null
      ensures ok <==> forall j :: 0 <= j < |params| ==> decl.Snapshot().ContainsState(params[j])
    {
      for i := 0 to |params|
        invariant forall j :: 0 <= j < i ==> decl.Snapshot().ContainsState(params[j])
      {
        if !decl.Snapshot().ContainsState(params[i]) {
          return false;
        }
      }
      return true;
    }

    /** A line of an action block: `name(p1, p2)` or the closing bracket. */
    method ActionStatement(line: string, words: seq<string>, lineNo: nat) returns (err: Option<ParseError>)
      requires Valid() && inDecl && !inState && inActions && line != "" && |words| > 0
      modifies this, decl
      ensures AsFed(err) == FeedAction(old(State()), line, words, lineNo)
      ensures err.None? ==> Valid()
      ensures doc == old(doc) && decl == old(decl) && stateDecl == old(stateDecl)
    {
      if IsEndBracket(words) {
        comments := [];
        inActions := false;
        return None;
      }
      var open := Index(line, '(');
      if line[0] == '(' || open < 0 || line[|line| - 1] != ')' {
        return Some(ParseError(ActionLine, lineNo, NoCause));
      }
      var body := line[..|line| - 1];
      assert body[open] == '(';
      var splits := SplitN2(body, '(');
      if ContainsAny(splits[1], "()") {
        return Some(ParseError(ActionLine, lineNo, NoCause));
      }
      err := DeclareActionStatement(splits[0], ActionParams(splits[1]), lineNo);
    }

    /** Adding the parsed action to the open declaration. */
    method DeclareActionStatement(name: string, params: seq<string>, lineNo: nat) returns (err: Option<ParseError>)
      requires Valid() && inDecl && !inState && inActions
      modifies this, decl
      ensures AsFed(err) == DeclareAction(old(State()), name, params, lineNo)
      ensures err.None? ==> Valid()
      ensures doc == old(doc) && decl == old(decl) && stateDecl == old(stateDecl)
    {
      var declared := StatesDeclared(params);
      if !declared {
        return Some(ParseError(ActionLine, lineNo, TypeNotFound));
      }
      var added := decl.AddActionDeclaration(ActionDeclaration(comments, name, params));
      if !added {
        return Some(ParseError(ActionLine, lineNo, Redeclaration));
      }
      comments := [];
      return None;
    }

    /** A statement line goes to the handler of the current block. */
    method Statement(line: string, words: seq<string>, lineNo: nat) returns (err: Option<ParseError>)
      requires Valid() && line != "" && |words| > 0
      modifies this, doc, decl, stateDecl
      ensures AsFed(err) == Dispatch(old(State()), line, words, lineNo)
      ensures err.None? ==> Valid()
      ensures doc == old(doc)
      ensures decl == null || decl == old(decl) || fresh(decl)
      ensures stateDecl == null || stateDecl == old(stateDecl) || fresh(stateDecl)
    {
      if inDecl {
        if inState {
          if inStateDecl {
            err := StateDeclStatement(words, lineNo);
          } else {
            err := StateStatement(words, lineNo);
          }
        } else if inActions {
          err := ActionStatement(line, words, lineNo);
        } else {
          err := DeclBodyStatement(words, lineNo);
        }
      } else {
        err := TopStatement(words, lineNo);
      }
    }

    /** A comment after a blank line starts a new block; otherwise it is
        appended to the current one. */
    method Comment(line: string)
      requires HasPrefix(line, "//")
      modifies this
      ensures comments == (if old(lastIsEmpty) then [] else old(comments)) + [CommentText(line)]
      ensures doc == old(doc) && decl == old(decl) && stateDecl == old(stateDecl)
      ensures State() == old(State()).(comments := comments, lastIsEmpty := false)
    {
      PushComment(CommentText(line));
    }

    /** Keep the last continuous block of comments, then add `text` to it. */
    method PushComment(text: string)
      modifies this
      ensures comments == (if old(lastIsEmpty) then [] else old(comments)) + [text]
      ensures doc == old(doc) && decl == old(decl) && stateDecl == old(stateDecl)
      ensures State() == old(State()).(comments := comments, lastIsEmpty := false)
    {
      if lastIsEmpty {
        comments := [];
        lastIsEmpty := false;
      }
      comments := comments + [text];
    }

    /** A statement line, after which the previous line is no longer blank. */
    method StatementLine(line: string, words: seq<string>, lineNo: nat) returns (err: Option<ParseError>)
      requires Valid() && line != "" && |words| > 0
      modifies this, doc, decl, stateDecl
      ensures AsFed(err) == Settle(Dispatch(old(State()), line, words, lineNo))
      ensures err.None? ==> Valid()
      ensures doc == old(doc)
      ensures decl == null || decl == old(decl) || fresh(decl)
      ensures stateDecl == null || stateDecl == old(stateDecl) || fresh(stateDecl)
    {
      err := Statement(line, words, lineNo);
      if err.None? {
        lastIsEmpty := false;
      }
    }

    /** One scanned line: blank lines and comments first, then the handler
        of the current block. */
    method FeedLine(raw: string, lineNo: nat) returns (err: Option<ParseError>)
      requires Valid()
      modifies this, doc, decl, stateDecl
      ensures AsFed(err) == Feed(old(State()), raw, lineNo)
      ensures err.None? ==> Valid()
      ensures doc == old(doc)
      ensures decl == null || decl == old(decl) || fresh(decl)
      ensures stateDecl == null || stateDecl == old(stateDecl) || fresh(stateDecl)
    {
      ghost var st := State();
      var line := TrimSpace(raw);
      if line == "" {
        lastIsEmpty := true;
        return None;
      }
      WordsOfLine(line);
      var words := Fields(line);
      if HasPrefix(words[0], "//") {
        FeedComment(st, raw, lineNo);
        Comment(line);
        return None;
      }
      FeedStatement(st, raw, lineNo, words);
      err := StatementLine(line, words, lineNo);
    }
  }

  /** ParseDoc over the lines of a document: the document built in place is
      the one `ParseDocument` describes, and the first failing line's error
      is returned with no document. */
  method ParseDoc(lines: seq<string>) returns (doc: ControllerManagerDocument?, err: Option<ParseError>)
    ensures ParseDocument(lines).Parsed? ==> err.None? && doc != null && doc.Snapshot() == ParseDocument(lines).doc
    ensures ParseDocument(lines).Failed? ==> err == Some(ParseDocument(lines).err) && doc == null
  {
    var p := new DocParser();
    for i := 0 to |lines|
      invariant p.Valid()
      invariant ParseLines(lines[..i]) == Next(p.State())
      invariant fresh(p) && fresh(p.doc)
      invariant p.decl == null || fresh(p.decl)
      invariant p.stateDecl == null || fresh(p.stateDecl)
    {
      assert lines[..i + 1][..i] == lines[..i];
      var e := p.FeedLine(lines[i], i + 1);
      if e.Some? {
        StopIsFinal(lines, i + 1);
        return null, e;
      }
    }
    assert lines[..|lines|] == lines;
    return p.doc, None;
  }
}
