/** The token parsers of the `.cm` language: group-versions, group-version-
    kinds and the word lists of `bind`, `alias` and `decl` statements. */
module GenTokens {
  import opened GoStrings
  import opened GenModel

  /** The error a statement fails with, as wrapped in the parse error. */
  datatype Cause =
    | NoCause
    | SizeNotMatch
    | InvalidSelector
    | WordsSizeNotMatch
    | ContainsSlash
    | InvalidGv
    | InvalidGvk(gvk: string)
    | Redeclaration
    | BindNotFound
    | TypeNotFound
    | InvalidDeclBlock
    | InvalidStateBlock
    | InvalidActionStmt

  datatype Parsed<T> = Ok(value: T) | Fail(cause: Cause)

  /** parseGv: "v1" is the core group; otherwise the version is the text
      after the last '/' and the group everything before it. */
  function ParseGv(gv: string): Parsed<GroupVersion> {
    var splits := Split(gv, '/');
    if |splits| == 1 && splits[0] == "v1" then Ok(GroupVersion("", "v1"))
    else if |splits| < 2 then Fail(InvalidGv)
    else Ok(GroupVersion(Join(splits[..|splits| - 1], "/"), splits[|splits| - 1]))
  }

  /** parseGv accepts exactly "v1" and the texts holding a '/', and then
      cuts at the last '/'. */
  lemma ParseGvAccepts(gv: string)
    ensures ParseGv(gv).Ok? <==> gv == "v1" || '/' in gv
    ensures !ParseGv(gv).Ok? ==> ParseGv(gv) == Fail(InvalidGv)
    ensures gv == "v1" ==> ParseGv(gv) == Ok(GroupVersion("", "v1"))
    ensures '/' in gv ==> && ParseGv(gv).Ok?
                          && '/' !in ParseGv(gv).value.version
                          && ParseGv(gv).value.group + "/" + ParseGv(gv).value.version == gv
  {
    var splits := Split(gv, '/');
    SplitCount(gv, '/');
    if '/' !in gv {
      SplitFree(gv, '/');
    } else {
      JoinLast(splits, "/");
      JoinSplit(gv, '/');
    }
  }

  /** Printing a group-version and parsing it back gives it again, whenever
      the version holds no '/' and the group is set (or the version is "v1"). */
  lemma ParseGvOfString(g: string, v: string)
    requires '/' !in v
    requires g != "" || v == "v1"
    ensures ParseGv(GroupVersion(g, v).String()) == Ok(GroupVersion(g, v))
  {
    if g != "" {
      var s := g + "/" + v;
      assert s == g + ['/'] + v;
      SplitSuffix(g, v, '/');
      var splits := Split(g, '/') + [v];
      assert splits[..|splits| - 1] == Split(g, '/');
      JoinSplit(g, '/');
    } else {
      SplitFree(v, '/');
    }
  }

  /** parseGvk: the kind is the non-empty text after the last '/', and the
      rest must parse as a group-version. */
  function ParseGvk(gvk: string): Parsed<GroupVersionKind> {
    var lastSlash := LastIndex(gvk, '/');
    if lastSlash < 0 || lastSlash == |gvk| - 1 then Fail(InvalidGvk(gvk))
    else
      match ParseGv(gvk[..lastSlash])
      case Fail(c) => Fail(c)
      case Ok(gv) => Ok(GroupVersionKind(gv.group, gv.version, gvk[lastSlash + 1..]))
  }

  lemma ParseGvkAccepts(gvk: string)
    ensures ParseGvk(gvk).Ok? ==>
              && ParseGvk(gvk).value.kind != ""
              && '/' !in ParseGvk(gvk).value.kind
              && ParseGv(gvk[..|gvk| - |ParseGvk(gvk).value.kind| - 1]) == Ok(ParseGvk(gvk).value.Gv())
              && gvk == gvk[..|gvk| - |ParseGvk(gvk).value.kind| - 1] + "/" + ParseGvk(gvk).value.kind
    ensures '/' !in gvk ==> ParseGvk(gvk) == Fail(InvalidGvk(gvk))
    ensures gvk != "" && gvk[|gvk| - 1] == '/' ==> ParseGvk(gvk) == Fail(InvalidGvk(gvk))
  {
    var k := LastIndex(gvk, '/');
    if '/' !in gvk {
      assert k < 0;
    }
    if k >= 0 && k != |gvk| - 1 {
      var kind := gvk[k + 1..];
      assert forall i :: 0 <= i < |kind| ==> kind[i] == gvk[k + 1 + i];
      assert gvk == gvk[..k] + "/" + kind;
    }
  }

  /** Printing a group-version-kind as "group/version/kind" and parsing it
      back gives it again. */
  lemma ParseGvkOfString(g: string, v: string, kind: string)
    requires '/' !in v && '/' !in kind && kind != ""
    requires g != "" || v == "v1"
    ensures ParseGvk(GroupVersion(g, v).String() + "/" + kind) == Ok(GroupVersionKind(g, v, kind))
  {
    var gv := GroupVersion(g, v).String();
    var s := gv + "/" + kind;
    var k := |gv|;
    assert s[k] == '/';
    assert forall j :: k < j < |s| ==> s[j] == kind[j - k - 1];
    assert LastIndex(s, '/') == k;
    assert s[..k] == gv;
    assert s[k + 1..] == kind;
    ParseGvOfString(g, v);
  }

  /** parseBind: `bind <gv> <pkg>`. */
  function ParseBind(words: seq<string>): (r: Parsed<(string, string, GroupVersion)>)
    ensures |words| != 3 ==> r == Fail(WordsSizeNotMatch)
    ensures |words| == 3 ==> match ParseGv(words[1])
                             case Ok(gv) => r == Ok((words[1], words[2], gv))
                             case Fail(c) => r == Fail(c)
  {
    if |words| != 3 then Fail(WordsSizeNotMatch)
    else
      match ParseGv(words[1])
      case Fail(c) => Fail(c)
      case Ok(gv) => Ok((words[1], words[2], gv))
  }

  /** parseAlias: `alias <alias> <gvk>`, where the alias holds no '/'; the
      result is (gvk, alias). */
  function ParseAlias(words: seq<string>): (r: Parsed<(string, string)>)
    ensures r.Ok? <==> |words| == 3 && '/' !in words[1]
    ensures r.Ok? ==> r.value == (words[2], words[1])
    ensures |words| != 3 ==> r == Fail(WordsSizeNotMatch)
    ensures |words| == 3 && '/' in words[1] ==> r == Fail(ContainsSlash)
  {
    if |words| != 3 then Fail(WordsSizeNotMatch)
    else if Index(words[1], '/') >= 0 then Fail(ContainsSlash)
    else Ok((words[2], words[1]))
  }

  predicate IsBeginBracket(words: seq<string>) {
    |words| == 1 && words[0] == "{"
  }

  predicate IsEndBracket(words: seq<string>) {
    |words| == 1 && words[0] == "}"
  }

  /** A line's words are a lone bracket exactly when the bracket is the
      line's only non-space character. */
  lemma BracketLine(line: string)
    ensures IsBeginBracket(Fields(line)) <==> RemoveSpaces(line) == "{"
    ensures IsEndBracket(Fields(line)) <==> RemoveSpaces(line) == "}"
  {
    FieldsCoverNonSpace(line);
    var ws := Fields(line);
    if RemoveSpaces(line) == "{" {
      ConcatOfOneChar(ws, '{');
    }
    if RemoveSpaces(line) == "}" {
      ConcatOfOneChar(ws, '}');
    }
    if |ws| == 1 {
      assert Concat(ws) == ws[0] + Concat(ws[1..]);
      assert Concat(ws[1..]) == "";
    }
  }

  /** parseDeclOpen: `decl <name> for <target> {`; the result is (name, target). */
  function ParseDeclOpen(words: seq<string>): (r: Parsed<(string, string)>)
    ensures r.Ok? <==> |words| == 5 && words[2] == "for" && words[4] == "{"
    ensures r.Ok? ==> r.value == (words[1], words[3])
    ensures |words| != 5 ==> r == Fail(WordsSizeNotMatch)
    ensures |words| == 5 && !r.Ok? ==> r == Fail(InvalidDeclBlock)
  {
    if |words| != 5 then Fail(WordsSizeNotMatch)
    else if words[2] != "for" then Fail(InvalidDeclBlock)
    else if !IsBeginBracket(words[4..]) then Fail(InvalidDeclBlock)
    else Ok((words[1], words[3]))
  }
}
