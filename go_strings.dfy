/** The parts of Go's `strings`, `bufio.ScanWords` and `sort.Strings` that the
    generator relies on, over strings modelled as `seq<char>`. */
module GoStrings {
  import opened Seqs

  /** unicode.IsSpace, which both strings.TrimSpace and bufio.ScanWords use. */
  predicate IsSpace(c: char) {
    c == ' ' || c == '\t' || c == '\n' || c == '\U{000B}' || c == '\U{000C}' || c == '\r'
    || c == '\U{0085}' || c == '\U{00A0}' || c == '\U{1680}'
    || ('\U{2000}' <= c <= '\U{200A}') || c == '\U{2028}' || c == '\U{2029}'
    || c == '\U{202F}' || c == '\U{205F}' || c == '\U{3000}'
  }

  predicate NoSpace(s: string) {
    forall i :: 0 <= i < |s| ==> !IsSpace(s[i])
  }

  predicate AllSpace(s: string) {
    forall i :: 0 <= i < |s| ==> IsSpace(s[i])
  }

  predicate HasPrefix(s: string, prefix: string) {
    |prefix| <= |s| && s[..|prefix|] == prefix
  }

  // ---------------------------------------------------------------------------
  // Searching

  /** strings.IndexByte: the first index of `c`, or -1. */
  function Index(s: string, c: char): (r: int)
    ensures -1 <= r < |s|
    ensures r >= 0 ==> s[r] == c
    ensures forall j :: 0 <= j < |s| && (r < 0 || j < r) ==> s[j] != c
  {
    if |s| == 0 then -1
    else if s[0] == c then 0
    else
      var k := Index(s[1..], c);
      if k < 0 then -1 else k + 1
  }

  /** Searching past a prefix that does not hold `c`. */
  lemma {:induction false} IndexAfter(a: string, b: string, c: char)
    requires c !in a
    ensures Index(a + b, c) == if Index(b, c) < 0 then -1 else |a| + Index(b, c)
  {
    if a != [] {
      IndexAfter(a[1..], b, c);
      assert (a + b)[1..] == a[1..] + b;
    } else {
      assert a + b == b;
    }
  }

  /** strings.LastIndexByte: the last index of `c`, or -1. */
  function LastIndex(s: string, c: char): (r: int)
    ensures -1 <= r < |s|
    ensures r >= 0 ==> s[r] == c
    ensures forall j :: r < j < |s| ==> s[j] != c
  {
    if |s| == 0 then -1
    else if s[|s| - 1] == c then |s| - 1
    else LastIndex(s[..|s| - 1], c)
  }

  /** strings.Index for a substring: the first position where `sub` occurs, or -1. */
  function IndexOf(s: string, sub: string): (r: int)
    ensures -1 <= r <= |s|
    ensures r >= 0 ==> HasPrefix(s[r..], sub)
    ensures forall j :: 0 <= j <= |s| && (r < 0 || j < r) ==> !HasPrefix(s[j..], sub)
    decreases |s|
  {
    if HasPrefix(s, sub) then 0
    else if |s| == 0 then -1
    else
      var k := IndexOf(s[1..], sub);
      assert forall j :: 1 <= j <= |s| ==> s[j..] == s[1..][j - 1..];
      if k < 0 then -1 else k + 1
  }

  /** strings.ContainsAny(s, chars). */
  predicate ContainsAny(s: string, chars: string) {
    exists i :: 0 <= i < |s| && s[i] in chars
  }

  // ---------------------------------------------------------------------------
  // Splitting and joining

  /** strings.Split with a one-character separator. */
  function Split(s: string, sep: char): (parts: seq<string>)
    ensures |parts| >= 1
    ensures forall i :: 0 <= i < |parts| ==> sep !in parts[i]
  {
    if |s| == 0 then [""]
    else
      var rest := Split(s[1..], sep);
      if s[0] == sep then [""] + rest
      else [[s[0]] + rest[0]] + rest[1..]
  }

  /** strings.Join. */
  function Join(parts: seq<string>, sep: string): string {
    if |parts| == 0 then ""
    else if |parts| == 1 then parts[0]
    else parts[0] + sep + Join(parts[1..], sep)
  }

  /** Every part followed by `sep`: what a loop writing "part, sep" into a
      buffer produces. */
  function Terminated(parts: seq<string>, sep: string): string {
    if parts == [] then "" else parts[0] + sep + Terminated(parts[1..], sep)
  }

  lemma {:induction false} TerminatedSnoc(parts: seq<string>, p: string, sep: string)
    ensures Terminated(parts + [p], sep) == Terminated(parts, sep) + p + sep
  {
    if parts == [] {
      assert [p][1..] == [];
    } else {
      TerminatedSnoc(parts[1..], p, sep);
      assert (parts + [p])[1..] == parts[1..] + [p];
    }
  }

  /** Terminating one more part of a list's prefix. */
  lemma TerminatedPrefix(parts: seq<string>, i: nat, sep: string)
    requires i < |parts|
    ensures Terminated(parts[..i + 1], sep) == Terminated(parts[..i], sep) + parts[i] + sep
  {
    assert parts[..i + 1] == parts[..i] + [parts[i]];
    TerminatedSnoc(parts[..i], parts[i], sep);
  }

  /** Terminating all parts but the last and appending the last is joining. */
  lemma {:induction false} TerminatedJoin(parts: seq<string>, sep: string)
    requires |parts| > 0
    ensures Terminated(parts[..|parts| - 1], sep) + parts[|parts| - 1] == Join(parts, sep)
  {
    if |parts| > 1 {
      TerminatedJoin(parts[1..], sep);
      assert parts[..|parts| - 1][1..] == parts[1..][..|parts[1..]| - 1];
    }
  }

  /** strings.SplitN(s, sep, 2) with a one-character separator. */
  function SplitN2(s: string, sep: char): (parts: seq<string>)
    ensures 1 <= |parts| <= 2
    ensures |parts| == 2 <==> sep in s
    ensures |parts| == 1 ==> parts[0] == s
    ensures |parts| == 2 ==> s == parts[0] + [sep] + parts[1] && sep !in parts[0]
  {
    var i := Index(s, sep);
    if i < 0 then [s] else [s[..i], s[i + 1..]]
  }

  lemma {:induction false} SplitNonEmptyHead(s: string, sep: char)
    requires |s| > 0 && s[0] != sep
    ensures Split(s, sep)[0] != ""
  {
  }

  /** Joining what Split produced restores the input. */
  lemma {:induction false} JoinSplit(s: string, sep: char)
    ensures Join(Split(s, sep), [sep]) == s
  {
    if |s| > 0 {
      var rest := Split(s[1..], sep);
      JoinSplit(s[1..], sep);
      if s[0] == sep {
        assert Split(s, sep) == [""] + rest;
        assert Join([""] + rest, [sep]) == "" + [sep] + Join(rest, [sep]) by {
          assert ([""] + rest)[1..] == rest;
        }
        assert s == [s[0]] + s[1..];
      } else {
        var parts := [[s[0]] + rest[0]] + rest[1..];
        assert Split(s, sep) == parts;
        if |rest| == 1 {
          assert Join(parts, [sep]) == [s[0]] + rest[0];
        } else {
          assert parts[1..] == rest[1..];
          assert Join(rest, [sep]) == rest[0] + [sep] + Join(rest[1..], [sep]);
        }
        assert s == [s[0]] + s[1..];
      }
    }
  }

  /** Splitting a join of separator-free parts gives the parts back. */
  lemma {:induction false} SplitJoin(parts: seq<string>, sep: char)
    requires |parts| >= 1
    requires forall i :: 0 <= i < |parts| ==> sep !in parts[i]
    ensures Split(Join(parts, [sep]), sep) == parts
  {
    if |parts| == 1 {
      SplitFree(parts[0], sep);
    } else {
      var head, tail := parts[0], parts[1..];
      var rest := Join(tail, [sep]);
      assert Join(parts, [sep]) == head + [sep] + rest;
      SplitJoin(tail, sep);
      SplitPrefix(head, rest, sep);
      assert [head] + tail == parts;
    }
  }

  lemma {:induction false} SplitFree(s: string, sep: char)
    requires sep !in s
    ensures Split(s, sep) == [s]
  {
    if |s| > 0 {
      SplitFree(s[1..], sep);
      assert s == [s[0]] + s[1..];
    }
  }

  lemma {:induction false} SplitPrefix(a: string, b: string, sep: char)
    requires sep !in a
    ensures Split(a + [sep] + b, sep) == [a] + Split(b, sep)
  {
    if |a| == 0 {
      assert a + [sep] + b == [sep] + b;
      assert ([sep] + b)[1..] == b;
    } else {
      var c, a' := a[0], a[1..];
      assert a == [c] + a';
      assert a + [sep] + b == [c] + (a' + [sep] + b);
      SplitPrefix(a', b, sep);
      SplitCons(c, a' + [sep] + b, sep);
    }
  }

  lemma {:induction false} SplitSuffix(a: string, b: string, sep: char)
    requires sep !in b
    ensures Split(a + [sep] + b, sep) == Split(a, sep) + [b]
  {
    if |a| == 0 {
      assert a + [sep] + b == [sep] + b;
      assert ([sep] + b)[1..] == b;
      SplitFree(b, sep);
    } else {
      var c, a' := a[0], a[1..];
      var l := Split(a', sep);
      assert a == [c] + a';
      assert a + [sep] + b == [c] + (a' + [sep] + b);
      SplitSuffix(a', b, sep);
      SplitCons(c, a' + [sep] + b, sep);
      SplitCons(c, a', sep);
      if c == sep {
        AppendAssoc([""], l, [b]);
      } else {
        SplitConsMerge([c], l, [b]);
      }
    }
  }

  /** Split of a text with a known first character. */
  lemma SplitCons(c: char, rest: string, sep: char)
    ensures Split([c] + rest, sep)
            == if c == sep then [""] + Split(rest, sep)
               else [[c] + Split(rest, sep)[0]] + Split(rest, sep)[1..]
  {
    assert ([c] + rest)[0] == c;
    assert ([c] + rest)[1..] == rest;
  }

  /** Splitting at a separator between two texts splits each on its own. */
  lemma {:induction false} SplitAppend(a: string, b: string, sep: char)
    ensures Split(a + [sep] + b, sep) == Split(a, sep) + Split(b, sep)
  {
    if |a| == 0 {
      SplitPrefix(a, b, sep);
    } else {
      var c, a' := a[0], a[1..];
      var l, r := Split(a', sep), Split(b, sep);
      assert a == [c] + a';
      assert a + [sep] + b == [c] + (a' + [sep] + b);
      SplitAppend(a', b, sep);
      SplitCons(c, a' + [sep] + b, sep);
      SplitCons(c, a', sep);
      if c == sep {
        AppendAssoc([""], l, r);
      } else {
        SplitConsMerge([c], l, r);
      }
    }
  }

  /** Prefixing the first of several parts, then appending more parts. */
  lemma SplitConsMerge(x: string, l: seq<string>, r: seq<string>)
    requires l != []
    ensures [x + (l + r)[0]] + (l + r)[1..] == ([x + l[0]] + l[1..]) + r
  {
    assert (l + r)[0] == l[0];
    assert (l + r)[1..] == l[1..] + r;
  }

  /** Split yields several parts exactly when the separator occurs. */
  lemma {:induction false} SplitCount(s: string, sep: char)
    ensures |Split(s, sep)| >= 2 <==> sep in s
  {
    if |s| > 0 {
      SplitCount(s[1..], sep);
      assert sep in s <==> s[0] == sep || sep in s[1..] by {
        assert s == [s[0]] + s[1..];
      }
    }
  }

  /** Joining all parts is joining all but the last, the separator and the last. */
  lemma {:induction false} JoinLast(parts: seq<string>, sep: string)
    requires |parts| >= 2
    ensures Join(parts[..|parts| - 1], sep) + sep + parts[|parts| - 1] == Join(parts, sep)
  {
    if |parts| > 2 {
      JoinLast(parts[1..], sep);
      assert parts[..|parts| - 1][1..] == parts[1..][..|parts[1..]| - 1];
    }
  }

  // ---------------------------------------------------------------------------
  // Whitespace

  /** Length of the leading run of spaces. */
  function LeadingSpaces(s: string): (n: nat)
    ensures n <= |s|
    ensures forall i :: 0 <= i < n ==> IsSpace(s[i])
    ensures n < |s| ==> !IsSpace(s[n])
  {
    if |s| == 0 || !IsSpace(s[0]) then 0 else 1 + LeadingSpaces(s[1..])
  }

  /** Length of the trailing run of spaces. */
  function TrailingSpaces(s: string): (n: nat)
    ensures n <= |s|
    ensures forall i :: |s| - n <= i < |s| ==> IsSpace(s[i])
    ensures n < |s| ==> !IsSpace(s[|s| - n - 1])
  {
    if |s| == 0 || !IsSpace(s[|s| - 1]) then 0
    else 1 + TrailingSpaces(s[..|s| - 1])
  }

  /** strings.TrimSpace. */
  function TrimSpace(s: string): (r: string)
    ensures |r| <= |s|
    ensures r == "" || (!IsSpace(r[0]) && !IsSpace(r[|r| - 1]))
    ensures s == "" || (!IsSpace(s[0]) && !IsSpace(s[|s| - 1])) ==> r == s
    ensures AllSpace(s) ==> r == ""
  {
    var t := s[LeadingSpaces(s)..];
    t[..|t| - TrailingSpaces(t)]
  }

  /** Length of the leading run of non-space characters. */
  function WordLength(s: string): (n: nat)
    ensures n <= |s|
    ensures forall i :: 0 <= i < n ==> !IsSpace(s[i])
    ensures n < |s| ==> IsSpace(s[n])
  {
    if |s| == 0 || IsSpace(s[0]) then 0 else 1 + WordLength(s[1..])
  }

  /** bufio.ScanWords over one line: the maximal runs of non-space characters. */
  function Fields(s: string): (words: seq<string>)
    ensures forall i :: 0 <= i < |words| ==> words[i] != "" && NoSpace(words[i])
    decreases |s|
  {
    var t := s[LeadingSpaces(s)..];
    if t == "" then []
    else
      var n := WordLength(t);
      [t[..n]] + Fields(t[n..])
  }

  /** Concatenation of a sequence of strings. */
  function Concat(xs: seq<string>): string {
    if xs == [] then "" else xs[0] + Concat(xs[1..])
  }

  /** Non-empty words concatenate to at least one character each. */
  lemma {:induction false} ConcatAtLeast(ws: seq<string>)
    requires forall i :: 0 <= i < |ws| ==> ws[i] != ""
    ensures |Concat(ws)| >= |ws|
  {
    if ws != [] {
      ConcatAtLeast(ws[1..]);
    }
  }

  /** Non-empty words whose concatenation is one character are that one word. */
  lemma ConcatOfOneChar(ws: seq<string>, c: char)
    requires forall i :: 0 <= i < |ws| ==> ws[i] != ""
    requires Concat(ws) == [c]
    ensures ws == [[c]]
  {
    ConcatAtLeast(ws);
    assert |ws| == 1;
    assert ws[1..] == [];
    assert Concat(ws[1..]) == "";
    assert Concat(ws) == ws[0] + Concat(ws[1..]);
    assert ws[0] == [c];
    assert ws == [ws[0]];
  }

  function RemoveSpaces(s: string): string {
    if s == "" then "" else (if IsSpace(s[0]) then "" else [s[0]]) + RemoveSpaces(s[1..])
  }

  lemma {:induction false} RemoveSpacesAppend(a: string, b: string)
    ensures RemoveSpaces(a + b) == RemoveSpaces(a) + RemoveSpaces(b)
  {
    if a != "" {
      RemoveSpacesAppend(a[1..], b);
      assert (a + b)[1..] == a[1..] + b;
    } else {
      assert a + b == b;
    }
  }

  lemma {:induction false} RemoveSpacesOfSpaces(s: string)
    requires AllSpace(s)
    ensures RemoveSpaces(s) == ""
  {
    if s != "" { RemoveSpacesOfSpaces(s[1..]); }
  }

  lemma {:induction false} RemoveSpacesOfWord(s: string)
    requires NoSpace(s)
    ensures RemoveSpaces(s) == s
  {
    if s != "" { RemoveSpacesOfWord(s[1..]); assert s == [s[0]] + s[1..]; }
  }

  /** The words of a line are exactly its non-space characters, cut at the spaces. */
  lemma {:induction false} FieldsCoverNonSpace(s: string)
    ensures Concat(Fields(s)) == RemoveSpaces(s)
    decreases |s|
  {
    var k := LeadingSpaces(s);
    var t := s[k..];
    assert s == s[..k] + t;
    RemoveSpacesAppend(s[..k], t);
    RemoveSpacesOfSpaces(s[..k]);
    if t != "" {
      var n := WordLength(t);
      assert t == t[..n] + t[n..];
      RemoveSpacesAppend(t[..n], t[n..]);
      RemoveSpacesOfWord(t[..n]);
      FieldsCoverNonSpace(t[n..]);
      assert Fields(s) == [t[..n]] + Fields(t[n..]);
    }
  }

  /** The first word of a line that starts with a non-space is its leading
      run of non-spaces. */
  lemma FirstField(s: string)
    requires s != "" && !IsSpace(s[0])
    ensures |Fields(s)| > 0 && WordLength(s) > 0 && Fields(s)[0] == s[..WordLength(s)]
  {
  }

  /** A text without spaces is one word. */
  lemma FieldsOfWord(s: string)
    requires s != "" && NoSpace(s)
    ensures Fields(s) == [s]
  {
    assert LeadingSpaces(s) == 0;
    assert s[0..] == s;
    assert WordLength(s) == |s|;
    assert s[..|s|] == s && s[|s|..] == "";
    assert Fields("") == [];
  }

  lemma FirstFieldIsPrefix(s: string)
    requires s != "" && !IsSpace(s[0])
    ensures |Fields(s)| > 0 && HasPrefix(s, Fields(s)[0])
  {
  }

  // ---------------------------------------------------------------------------
  // Ordering: Go compares strings byte by byte; for valid UTF-8 that is the
  // order of the code points, which is the order used here.

  predicate Less(a: string, b: string) {
    if a == "" then b != ""
    else if b == "" then false
    else if a[0] != b[0] then a[0] < b[0]
    else Less(a[1..], b[1..])
  }

  lemma {:induction false} LessIrreflexive(a: string)
    ensures !Less(a, a)
  {
    if a != "" { LessIrreflexive(a[1..]); }
  }

  lemma {:induction false} LessTransitive(a: string, b: string, c: string)
    requires Less(a, b) && Less(b, c)
    ensures Less(a, c)
  {
    if a != "" && b != "" && c != "" && a[0] == b[0] && b[0] == c[0] {
      LessTransitive(a[1..], b[1..], c[1..]);
    }
  }

  lemma {:induction false} LessTotal(a: string, b: string)
    requires a != b
    ensures Less(a, b) || Less(b, a)
  {
    if a != "" && b != "" && a[0] == b[0] {
      assert a == [a[0]] + a[1..] && b == [b[0]] + b[1..];
      LessTotal(a[1..], b[1..]);
    }
  }

  lemma {:induction false} LessAsymmetric(a: string, b: string)
    requires Less(a, b)
    ensures !Less(b, a)
  {
    if a != "" && b != "" && a[0] == b[0] {
      LessAsymmetric(a[1..], b[1..]);
    }
  }

  predicate IsLeast(m: string, ks: set<string>) {
    m in ks && forall x :: x in ks && x != m ==> Less(m, x)
  }

  lemma {:induction false} LeastExists(ks: set<string>)
    requires ks != {}
    ensures exists m :: IsLeast(m, ks)
    decreases |ks|
  {
    var y :| y in ks;
    if ks - {y} == {} {
      assert ks == {y};
      assert IsLeast(y, ks);
    } else {
      LeastExists(ks - {y});
      var m :| IsLeast(m, ks - {y});
      if Less(m, y) {
        forall x | x in ks && x != m ensures Less(m, x) {
          if x == y { } else { assert x in ks - {y}; }
        }
        assert IsLeast(m, ks);
      } else {
        assert m != y;
        LessTotal(m, y);
        forall x | x in ks && x != y ensures Less(y, x) {
          if x != m { assert x in ks - {y}; LessTransitive(y, m, x); }
        }
        assert IsLeast(y, ks);
      }
    }
  }

  lemma LeastUnique(ks: set<string>)
    ensures forall m, n :: IsLeast(m, ks) && IsLeast(n, ks) ==> m == n
  {
    forall m, n | IsLeast(m, ks) && IsLeast(n, ks) ensures m == n {
      if m != n { LessAsymmetric(m, n); }
    }
  }

  predicate StrictlySorted(s: seq<string>) {
    forall i, j :: 0 <= i < j < |s| ==> Less(s[i], s[j])
  }

  /** lo.Keys followed by sort.Strings: the keys in ascending order. */
  function SortedKeys(ks: set<string>): (r: seq<string>)
    ensures |r| == |ks|
    ensures forall k :: k in ks <==> k in r
    ensures StrictlySorted(r)
    decreases |ks|
  {
    if ks == {} then []
    else
      LeastExists(ks);
      LeastUnique(ks);
      var m :| IsLeast(m, ks);
      var rest := SortedKeys(ks - {m});
      assert forall j :: 0 <= j < |rest| ==> Less(m, rest[j]) by {
        forall j | 0 <= j < |rest| ensures Less(m, rest[j]) {
          assert rest[j] in rest;
          assert rest[j] in ks - {m};
        }
      }
      [m] + rest
  }
}
