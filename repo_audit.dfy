// The repository audit tool: per-file metrics from C# source text, the
// namespace dependency map, sliding-window duplicate detection, issue
// classification and the summary figures.  Regular-expression matches and
// counts are inputs supplied by the caller.
module RepoAudit {
  import opened Common
  import StringOrder
  import Grouping

  // ---------------------------------------------------------------------
  // strip_comments_and_strings
  // ---------------------------------------------------------------------

  /** The first substitution: each block comment, up to the first closing star-slash after its opener, becomes one space. */
  function StripBlockComments(s: string): (r: string)
    ensures |r| <= |s|
    decreases |s|
  {
    if |s| < 2 then s
    else if s[..2] == "/*" && FindIn(s, "*/", 2, |s|) != -1 then
      " " + StripBlockComments(s[FindIn(s, "*/", 2, |s|) + 2..])
    else [s[0]] + StripBlockComments(s[1..])
  }

  /** Where the string literal opened before position i ends (just past its closing quote), honouring backslash escapes; None when it never closes. */
  function LiteralEnd(s: string, i: nat): (r: Option<nat>)
    ensures r.Some? ==> i < r.value <= |s| && s[r.value - 1] == '"'
    decreases |s| - i
  {
    if i >= |s| then None
    else if s[i] == '"' then Some(i + 1)
    else if s[i] == '\\' then (if i + 1 < |s| && s[i + 1] != '\n' then LiteralEnd(s, i + 2) else None)
    else LiteralEnd(s, i + 1)
  }

  /** The second substitution: every complete double-quoted literal becomes an empty one. */
  function StripStringLiterals(s: string): (r: string)
    ensures |r| <= |s|
    decreases |s|
  {
    if s == [] then []
    else if s[0] == '"' && LiteralEnd(s, 1).Some? then "\"\"" + StripStringLiterals(s[LiteralEnd(s, 1).value..])
    else [s[0]] + StripStringLiterals(s[1..])
  }

  /** The length of the character literal at the front of s (an optional backslash, one character other than a newline, a closing quote), or 0. */
  function CharLiteralLength(s: string): (n: nat)
    ensures n == 0 || n == 3 || n == 4
    ensures n > 0 ==> n <= |s| && s[0] == '\'' && s[n - 1] == '\''
  {
    if |s| >= 4 && s[0] == '\'' && s[1] == '\\' && s[2] != '\n' && s[3] == '\'' then 4
    else if |s| >= 3 && s[0] == '\'' && s[1] != '\n' && s[2] == '\'' then 3
    else 0
  }

  /** The third substitution: every character literal becomes an empty pair of quotes. */
  function StripCharLiterals(s: string): (r: string)
    ensures |r| <= |s|
    decreases |s|
  {
    if s == [] then []
    else if CharLiteralLength(s) > 0 then "''" + StripCharLiterals(s[CharLiteralLength(s)..])
    else [s[0]] + StripCharLiterals(s[1..])
  }

  function StripCommentsAndStrings(s: string): (r: string)
    ensures |r| <= |s|
  {
    StripCharLiterals(StripStringLiterals(StripBlockComments(s)))
  }

  /** Text without a comment opener passes the first substitution unchanged. */
  lemma {:induction false} CommentFreeUnchanged(s: string)
    requires forall i :: 0 <= i < |s| - 1 ==> !(s[i] == '/' && s[i + 1] == '*')
    ensures StripBlockComments(s) == s
    decreases |s|
  {
    if |s| >= 2 {
      assert s[..2] != "/*" by { assert !(s[0] == '/' && s[1] == '*'); }
      CommentFreeUnchanged(s[1..]);
      assert [s[0]] + s[1..] == s;
    }
  }

  /** A comment whose inside holds no closer is replaced, opener to closer, by one space. */
  lemma ClosedCommentReplaced(t: string, u: string)
    requires forall j :: 0 <= j < |t| - 1 ==> !(t[j] == '*' && t[j + 1] == '/')
    ensures StripBlockComments("/*" + t + "*/" + u) == " " + StripBlockComments(u)
  {
    var s := "/*" + t + "*/" + u;
    assert s[..2] == "/*";
    assert OccursAt(s, "*/", 2 + |t|) by { assert s[2 + |t|..2 + |t| + 2] == "*/"; }
    forall j | 2 <= j < 2 + |t| ensures !OccursAt(s, "*/", j) {
      if j < 2 + |t| - 1 {
        assert s[j] == t[j - 2] && s[j + 1] == t[j - 1];
      } else {
        assert s[j + 1] == '*';
      }
    }
    var close := FindIn(s, "*/", 2, |s|);
    assert close == 2 + |t|;
    assert s[close + 2..] == u;
  }

  /** Text without a double quote passes the second substitution unchanged. */
  lemma {:induction false} QuoteFreeUnchanged(s: string)
    requires forall i :: 0 <= i < |s| ==> s[i] != '"'
    ensures StripStringLiterals(s) == s
  {
    if s != [] {
      QuoteFreeUnchanged(s[1..]);
      assert [s[0]] + s[1..] == s;
    }
  }

  lemma {:induction false} LiteralEndPlain(t: string, u: string, i: nat)
    requires i <= |t|
    requires forall j :: 0 <= j < |t| ==> t[j] != '"' && t[j] != '\\'
    ensures LiteralEnd("\"" + t + "\"" + u, 1 + i) == Some(|t| + 2)
    decreases |t| - i
  {
    var s := "\"" + t + "\"" + u;
    if i == |t| {
      assert s[1 + i] == '"';
    } else {
      assert s[1 + i] == t[i];
      LiteralEndPlain(t, u, i + 1);
    }
  }

  /** A literal holding neither quotes nor backslashes is emptied. */
  lemma PlainLiteralEmptied(t: string, u: string)
    requires forall j :: 0 <= j < |t| ==> t[j] != '"' && t[j] != '\\'
    ensures StripStringLiterals("\"" + t + "\"" + u) == "\"\"" + StripStringLiterals(u)
  {
    var s := "\"" + t + "\"" + u;
    LiteralEndPlain(t, u, 0);
    assert s[|t| + 2..] == u;
  }

  /** An escaped quote does not end a literal: the whole of "a\"b" is emptied. */
  lemma EscapedQuoteStaysInside()
    ensures StripStringLiterals("\"a\\\"b\"") == "\"\""
  {
    var s := "\"a\\\"b\"";
    assert LiteralEnd(s, 5) == Some(6);
    assert LiteralEnd(s, 2) == Some(6);
    assert LiteralEnd(s, 1) == Some(6);
    assert s[6..] == [];
  }

  /** Text without a single quote passes the third substitution unchanged. */
  lemma {:induction false} ApostropheFreeUnchanged(s: string)
    requires forall i :: 0 <= i < |s| ==> s[i] != '\''
    ensures StripCharLiterals(s) == s
  {
    if s != [] {
      ApostropheFreeUnchanged(s[1..]);
      assert [s[0]] + s[1..] == s;
    }
  }

  /** Text holding no comment opener and no quotes of either kind is not changed at all. */
  lemma PlainTextUnchanged(s: string)
    requires forall i :: 0 <= i < |s| ==> s[i] != '"' && s[i] != '\''
    requires forall i :: 0 <= i < |s| - 1 ==> !(s[i] == '/' && s[i + 1] == '*')
    ensures StripCommentsAndStrings(s) == s
  {
    CommentFreeUnchanged(s);
    QuoteFreeUnchanged(s);
    ApostropheFreeUnchanged(s);
  }

  // ---------------------------------------------------------------------
  // MethodMetrics and FileMetrics
  // ---------------------------------------------------------------------

  datatype MethodMetrics = MethodMetrics(name: string, parameters: nat, docPresent: bool, complexity: nat, lineSpan: (nat, nat))

  /** The fraction num / den, standing in for a floating-point ratio. */
  datatype Ratio = Ratio(num: nat, den: nat)

  datatype FileMetrics = FileMetrics(path: string, namespace: Option<string>, loc: nat, sloc: nat, classes: seq<string>,
                                     methods: seq<MethodMetrics>, docLines: nat, complexityTotal: nat, awaitCount: nat)
  {
    function MethodCount(): nat
    {
      |methods|
    }

    /** doc_ratio: doc_lines / loc, and 0 for a file without lines. */
    function DocRatio(): (r: Ratio)
      ensures r.den > 0
      ensures loc == 0 ==> r.num == 0
      ensures loc > 0 ==> r.num * loc == docLines * r.den
    {
      if loc == 0 then Ratio(0, 1) else Ratio(docLines, loc)
    }
  }

  // ---------------------------------------------------------------------
  // compute_file_metrics
  // ---------------------------------------------------------------------

  /** One METHOD_RE match: the name and params groups and the span of the match. */
  datatype MethodMatch = MethodMatch(name: string, params: string, start: nat, end: nat)

  predicate MatchesInText(text: string, ms: seq<MethodMatch>)
  {
    forall k :: 0 <= k < |ms| ==> ms[k].start <= ms[k].end <= |text|
  }

  /** What the regular expressions find in one file's text: the first namespace, the class names, the number of doc-comment lines and of awaits, and the method matches. */
  datatype FileMatches = FileMatches(namespace: Option<string>, classes: seq<string>, docLines: nat, awaitCount: nat,
                                     methods: seq<MethodMatch>)

  /** 0 for a blank parameter list, else the non-blank pieces of a plain comma split. */
  function ParameterCount(params: string): nat
  {
    var p := PyStrip(params);
    if p == [] then 0 else CountNonBlank(PySplitChar(p, ','))
  }

  lemma {:induction false} SplitCount(s: string, sep: char, cur: string)
    requires forall j :: 0 <= j < |cur| ==> cur[j] != sep
    ensures |PySplitCharFrom(s, sep, cur)| == CountChar(s, sep) + 1
    decreases |s|
  {
    if s != [] {
      if s[0] == sep {
        SplitCount(s[1..], sep, []);
      } else {
        SplitCount(s[1..], sep, cur + [s[0]]);
      }
    }
  }

  /** A blank list has no parameters, and a list has at most one more parameter than it has commas. */
  lemma ParameterCountBound(params: string)
    ensures PyStrip(params) == [] ==> ParameterCount(params) == 0
    ensures ParameterCount(params) <= CountChar(PyStrip(params), ',') + 1
  {
    SplitCount(PyStrip(params), ',', []);
  }

  /** The scan of the text after a match, from position i at running depth `depth`, for the first brace that takes the depth below zero. */
  function UnmatchedFrom(block: string, i: nat, depth: int): (r: Option<nat>)
    requires i <= |block| && depth == Depth(block[..i])
    requires forall k :: 0 <= k <= i ==> Depth(block[..k]) >= 0
    ensures r.Some? ==> i <= r.value < |block| && block[r.value] == '}' && Depth(block[..r.value + 1]) < 0
    ensures r.Some? ==> forall k :: 0 <= k <= r.value ==> Depth(block[..k]) >= 0
    ensures r.None? ==> forall k :: 0 <= k <= |block| ==> Depth(block[..k]) >= 0
    decreases |block| - i
  {
    if i == |block| then None
    else
      DepthSnoc(block, i);
      if depth + BraceStep(block[i]) < 0 then Some(i)
      else UnmatchedFrom(block, i + 1, depth + BraceStep(block[i]))
  }

  /** The first brace of `block` that takes the running depth below zero. */
  function FirstUnmatchedClose(block: string): (r: Option<nat>)
    ensures r.Some? ==> r.value < |block| && block[r.value] == '}' && Depth(block[..r.value + 1]) < 0
    ensures r.Some? ==> forall k :: 0 <= k <= r.value ==> Depth(block[..k]) >= 0
    ensures r.None? ==> forall k :: 0 <= k <= |block| ==> Depth(block[..k]) >= 0
  {
    assert block[..0] == [];
    UnmatchedFrom(block, 0, 0)
  }

  /** list.count(x). */
  function CountEqual(xs: seq<string>, x: string): (n: nat)
    ensures n <= |xs|
  {
    if xs == [] then 0 else (if xs[0] == x then 1 else 0) + CountEqual(xs[1..], x)
  }

  /** The offset added when no brace closes the method: `block.split("\n", 1)[0:1].count("\n")` counts list elements equal to a newline. */
  function NoCloseOffset(block: string): nat
  {
    CountEqual([PySplitChar(block, '\n')[0]], "\n")
  }

  /** The first piece of a newline split holds no newline, so that offset is always 0. */
  lemma NoCloseOffsetIsZero(block: string)
    ensures NoCloseOffset(block) == 0
  {
    var first := PySplitChar(block, '\n')[0];
    assert first != "\n" by {
      if |first| == 1 { assert first[0] != '\n'; }
    }
  }

  /** end_line as written: start_line plus the newlines between match.end() and the unmatched brace. */
  function EndLineAsWritten(text: string, m: MethodMatch): nat
    requires m.start <= m.end <= |text|
  {
    var block := text[m.end..];
    match FirstUnmatchedClose(block)
    case Some(idx) => LineNumber(text, m.start) + CountChar(block[..idx], '\n')
    case None => LineNumber(text, m.start) + NoCloseOffset(block)
  }

  /** The end line: the line of the first brace after the match that takes the depth below zero, and the start line when there is none. */
  function EndLine(text: string, m: MethodMatch): (e: nat)
    requires m.start <= m.end <= |text|
  {
    var block := text[m.end..];
    match FirstUnmatchedClose(block)
    case Some(idx) => LineNumber(text, m.end + idx)
    case None => LineNumber(text, m.start) + NoCloseOffset(block)
  }

  lemma LineNumberSplit(text: string, a: nat, b: nat)
    requires a <= b <= |text|
    ensures LineNumber(text, b) == LineNumber(text, a) + CountChar(text[a..b], '\n')
  {
    assert text[..b] == text[..a] + text[a..b];
    CountCharConcat(text[..a], text[a..b], '\n');
  }

  /** The end line never precedes the start line; it is the start line when no brace closes the method. */
  lemma EndLineFacts(text: string, m: MethodMatch)
    requires m.start <= m.end <= |text|
    ensures EndLine(text, m) >= LineNumber(text, m.start)
    ensures FirstUnmatchedClose(text[m.end..]).None? ==> EndLine(text, m) == LineNumber(text, m.start)
    ensures FirstUnmatchedClose(text[m.end..]).Some? ==>
              var idx := FirstUnmatchedClose(text[m.end..]).value;
              text[m.end + idx] == '}' && EndLine(text, m) == LineNumber(text, m.end + idx)
  {
    var block := text[m.end..];
    NoCloseOffsetIsZero(block);
    match FirstUnmatchedClose(block)
    case Some(idx) =>
      LineNumberSplit(text, m.start, m.end + idx);
    case None =>
  }

  /** The text before the first closing brace, all of it when there is none: str.split("}", 1)[0]. */
  function BeforeFirstClose(s: string): string
  {
    PySplitChar(s, '}')[0]
  }

  /** 1 + the keyword matches in the stripped text after the match, up to its first closing brace. */
  function Complexity(text: string, m: MethodMatch, keywords: string -> nat): (c: nat)
    requires m.end <= |text|
    ensures c >= 1
  {
    keywords(BeforeFirstClose(StripCommentsAndStrings(text[m.end..]))) + 1
  }

  /** leading_lines[-3:]: the last three lines, or all of them when there are fewer. */
  function LastThree(xs: seq<string>): (r: seq<string>)
    ensures |r| == if |xs| < 3 then |xs| else 3
    ensures r == xs[|xs| - |r|..]
  {
    if |xs| <= 3 then xs else xs[|xs| - 3..]
  }

  /** doc_present: "///" occurs in the last three lines before the match start joined with newlines. */
  function DocPresent(text: string, start: nat): bool
    requires start <= |text|
  {
    var leading := SplitLines(text[..start]);
    if leading == [] then false else Contains(Join(LastThree(leading), "\n"), "///")
  }

  function Max(a: nat, b: nat): nat
  {
    if a >= b then a else b
  }

  /** The MethodMetrics record compute_file_metrics appends for match m. */
  function MethodAt(text: string, m: MethodMatch, keywords: string -> nat): MethodMetrics
    requires m.start <= m.end <= |text|
  {
    var start := LineNumber(text, m.start);
    MethodMetrics(m.name, ParameterCount(m.params), DocPresent(text, m.start), Complexity(text, m, keywords),
                  (start, Max(EndLine(text, m), start)))
  }

  predicate NoNewline(s: string)
  {
    forall j :: 0 <= j < |s| ==> s[j] != '\n'
  }

  lemma OccursInPrefix(a: string, c: string, p: string, i: int)
    requires OccursAt(a, p, i)
    ensures OccursAt(a + c, p, i)
  {
    assert (a + c)[i..i + |p|] == a[i..i + |p|];
  }

  lemma OccursInSuffix(c: string, b: string, p: string, i: int)
    requires OccursAt(b, p, i)
    ensures OccursAt(c + b, p, |c| + i)
  {
    assert (c + b)[|c| + i..|c| + i + |p|] == b[i..i + |p|];
  }

  /** A pattern without newlines occurs in a + "\n" + b exactly when it occurs in a or in b. */
  lemma ContainsAcrossNewline(a: string, b: string, p: string)
    requires NoNewline(p) && |p| > 0
    ensures Contains(a + "\n" + b, p) <==> Contains(a, p) || Contains(b, p)
  {
    var c := a + "\n";
    var s := c + b;
    forall i | 0 <= i <= |a| < i + |p| <= |s| ensures !OccursAt(s, p, i) {
      assert s[i..i + |p|][|a| - i] == s[|a|] == '\n';
      assert p[|a| - i] != '\n';
    }
    if Contains(s, p) {
      var i :| 0 <= i <= |s| - |p| && OccursAt(s, p, i);
      if i + |p| <= |a| {
        assert s[i..i + |p|] == a[i..i + |p|];
        assert OccursAt(a, p, i);
      } else if i > |a| {
        assert s[i..i + |p|] == b[i - |c|..i - |c| + |p|];
        assert OccursAt(b, p, i - |c|);
      }
    }
    if Contains(a, p) {
      var i :| 0 <= i <= |a| - |p| && OccursAt(a, p, i);
      OccursInPrefix(a, "\n" + b, p, i);
      assert a + ("\n" + b) == s;
    }
    if Contains(b, p) {
      var i :| 0 <= i <= |b| - |p| && OccursAt(b, p, i);
      OccursInSuffix(c, b, p, i);
    }
  }

  /** Joining newline-free lines with newlines creates no new occurrence of a newline-free pattern. */
  lemma {:induction false} JoinContains(xs: seq<string>, p: string)
    requires NoNewline(p) && |p| > 0
    requires forall k :: 0 <= k < |xs| ==> NoNewline(xs[k])
    ensures Contains(Join(xs, "\n"), p) <==> exists k :: 0 <= k < |xs| && Contains(xs[k], p)
  {
    if |xs| == 0 {
      assert !Contains("", p);
    } else if |xs| == 1 {
    } else {
      JoinContains(xs[1..], p);
      ContainsAcrossNewline(xs[0], Join(xs[1..], "\n"), p);
      assert xs[0] + "\n" + Join(xs[1..], "\n") == Join(xs, "\n");
      if exists k :: 0 <= k < |xs| && Contains(xs[k], p) {
        var k :| 0 <= k < |xs| && Contains(xs[k], p);
        if k > 0 { assert xs[1..][k - 1] == xs[k]; }
      }
    }
  }

  /** doc_present holds iff one of the (up to) three lines before the match start contains "///". */
  lemma DocPresentIff(text: string, start: nat)
    requires start <= |text|
    ensures var leading := SplitLines(text[..start]);
            DocPresent(text, start) <==> exists k :: |leading| - 3 <= k < |leading| && 0 <= k && Contains(leading[k], "///")
  {
    var leading := SplitLines(text[..start]);
    if leading != [] {
      LastThreeNoNewline(leading);
      JoinContains(LastThree(leading), "///");
      LastThreeHas(leading, "///");
    }
  }

  lemma LastThreeNoNewline(leading: seq<string>)
    requires forall i :: 0 <= i < |leading| ==> forall j :: 0 <= j < |leading[i]| ==> !IsLineBoundary(leading[i][j])
    ensures forall k :: 0 <= k < |LastThree(leading)| ==> NoNewline(LastThree(leading)[k])
  {
    var last := LastThree(leading);
    forall k | 0 <= k < |last| ensures NoNewline(last[k]) {
      assert last[k] == leading[|leading| - |last| + k];
    }
  }

  /** One of the last three lines contains p exactly when a line of index at least |leading| - 3 does. */
  lemma LastThreeHas(leading: seq<string>, p: string)
    ensures (exists k :: 0 <= k < |LastThree(leading)| && Contains(LastThree(leading)[k], p))
        <==> exists k :: |leading| - 3 <= k < |leading| && 0 <= k && Contains(leading[k], p)
  {
    var last := LastThree(leading);
    var d := |leading| - |last|;
    SuffixHas(leading, d, (line: string) => Contains(line, p));
    assert forall k :: 0 <= k < |last| ==> last[k] == leading[d..][k];
    assert d == if |leading| < 3 then 0 else |leading| - 3;
  }

  /** Some element of the suffix from d satisfies P exactly when some element of index at least d does. */
  lemma SuffixHas<T>(xs: seq<T>, d: nat, P: T -> bool)
    requires d <= |xs|
    ensures (exists k :: 0 <= k < |xs[d..]| && P(xs[d..][k])) <==> exists k :: d <= k < |xs| && P(xs[k])
  {
    if exists k :: d <= k < |xs| && P(xs[k]) {
      var k :| d <= k < |xs| && P(xs[k]);
      assert xs[d..][k - d] == xs[k];
    }
  }

  /** The brace scan of compute_file_metrics for one match: the line of its end. */
  method ScanEndLine(text: string, m: MethodMatch) returns (endLine: nat)
    requires m.start <= m.end <= |text|
    ensures endLine == EndLine(text, m)
  {
    var startLine := LineNumber(text, m.start);
    var block := text[m.end..];
    var close := ScanBraces(block);
    if close.Some? {
      LineNumberSplit(text, m.start, m.end + close.value);
      endLine := startLine + CountChar(text[m.start..m.end + close.value], '\n');
    } else {
      endLine := startLine + NoCloseOffset(block);
    }
  }

  /** The brace loop: depth counting from 0, stopping at the first '}' that takes it below 0. */
  method ScanBraces(block: string) returns (close: Option<nat>)
    ensures close == FirstUnmatchedClose(block)
    ensures close.Some? ==> close.value < |block|
  {
    var depth := 0;
    var idx := 0;
    assert block[..0] == [];
    while idx < |block|
      invariant 0 <= idx <= |block|
      invariant depth == Depth(block[..idx]) && forall k :: 0 <= k <= idx ==> Depth(block[..k]) >= 0
      invariant UnmatchedFrom(block, idx, depth) == FirstUnmatchedClose(block)
    {
      DepthSnoc(block, idx);
      if block[idx] == '{' || block[idx] == '}' {
        depth := depth + (if block[idx] == '{' then 1 else -1);
        if depth < 0 {
          assert FirstUnmatchedClose(block) == Some(idx);
          return Some(idx);
        }
      }
      idx := idx + 1;
    }
    assert FirstUnmatchedClose(block) == None;
    return None;
  }

  /** The record compute_file_metrics appends for one match. */
  method MeasureMethod(text: string, m: MethodMatch, keywords: string -> nat) returns (r: MethodMetrics)
    requires m.start <= m.end <= |text|
    ensures r == MethodAt(text, m, keywords)
  {
    var startLine := LineNumber(text, m.start);
    var endLine := ScanEndLine(text, m);
    var complexity := keywords(BeforeFirstClose(StripCommentsAndStrings(text[m.end..]))) + 1;
    r := MethodMetrics(m.name, ParameterCount(m.params), DocPresent(text, m.start), complexity,
                       (startLine, Max(endLine, startLine)));
  }

  /** complexity_total: the sum of the method complexities. */
  function TotalComplexity(ms: seq<MethodMetrics>): nat
  {
    if ms == [] then 0 else TotalComplexity(ms[..|ms| - 1]) + ms[|ms| - 1].complexity
  }

  /** The FileMetrics compute_file_metrics returns for a file with this path, text and regular-expression matches. */
  function FileMetricsOf(path: string, text: string, o: FileMatches, keywords: string -> nat): FileMetrics
    requires MatchesInText(text, o.methods)
  {
    var lines := SplitLines(text);
    var methods := MapSeq(o.methods, (m: MethodMatch) requires m.start <= m.end <= |text| => MethodAt(text, m, keywords));
    FileMetrics(path, o.namespace, |lines|, CountNonBlank(lines), o.classes, methods, o.docLines,
                TotalComplexity(methods), o.awaitCount)
  }

  method ComputeFileMetrics(path: string, text: string, o: FileMatches, keywords: string -> nat) returns (fm: FileMetrics)
    requires MatchesInText(text, o.methods)
    ensures fm == FileMetricsOf(path, text, o, keywords)
  {
    var lines := SplitLines(text);
    ghost var records := MapSeq(o.methods, (m: MethodMatch) requires m.start <= m.end <= |text| => MethodAt(text, m, keywords));
    var methods := MeasureMethods(text, o.methods, keywords, records);
    fm := FileMetrics(path, o.namespace, |lines|, CountNonBlank(lines), o.classes, methods, o.docLines,
                      TotalComplexity(methods), o.awaitCount);
  }

  /** The loop of compute_file_metrics over the method matches: one record per match, in order. */
  method MeasureMethods(text: string, ms: seq<MethodMatch>, keywords: string -> nat, ghost records: seq<MethodMetrics>)
    returns (methods: seq<MethodMetrics>)
    requires MatchesInText(text, ms)
    requires |records| == |ms| && forall k :: 0 <= k < |ms| ==> records[k] == MethodAt(text, ms[k], keywords)
    ensures methods == records
  {
    methods := [];
    var i := 0;
    while i < |ms|
      invariant 0 <= i <= |ms|
      invariant methods == records[..i]
    {
      var record := MeasureMethod(text, ms[i], keywords);
      assert records[..i + 1] == records[..i] + [records[i]];
      methods := methods + [record];
      i := i + 1;
    }
    assert records[..i] == records;
  }

  lemma {:induction false} TotalAtLeastCount(ms: seq<MethodMetrics>)
    requires forall k :: 0 <= k < |ms| ==> ms[k].complexity >= 1
    ensures TotalComplexity(ms) >= |ms|
  {
    if ms != [] {
      TotalAtLeastCount(ms[..|ms| - 1]);
    }
  }

  /** What compute_file_metrics promises: sloc <= loc, one record per method match, every complexity >= 1,
      every span ordered and ending on the line of the unmatched brace, and a total at least the method count. */
  lemma FileMetricsFacts(path: string, text: string, o: FileMatches, keywords: string -> nat)
    requires MatchesInText(text, o.methods)
    ensures var fm := FileMetricsOf(path, text, o, keywords);
            && fm.sloc <= fm.loc
            && fm.MethodCount() == |o.methods|
            && (forall k :: 0 <= k < |fm.methods| ==> fm.methods[k].complexity >= 1)
            && (forall k :: 0 <= k < |fm.methods| ==>
                  fm.methods[k].lineSpan.0 <= fm.methods[k].lineSpan.1
                  && fm.methods[k].lineSpan.1 == EndLine(text, o.methods[k]))
            && fm.complexityTotal >= fm.MethodCount()
  {
    var fm := FileMetricsOf(path, text, o, keywords);
    forall k | 0 <= k < |fm.methods|
      ensures fm.methods[k].lineSpan.0 <= fm.methods[k].lineSpan.1 && fm.methods[k].lineSpan.1 == EndLine(text, o.methods[k])
    {
      EndLineFacts(text, o.methods[k]);
    }
    TotalAtLeastCount(fm.methods);
  }

  /** Where a closing brace is found, the end line as written falls short of that brace's line by exactly the
      newlines inside the match itself. */
  lemma EndLineShortfall(text: string, m: MethodMatch)
    requires m.start <= m.end <= |text|
    requires FirstUnmatchedClose(text[m.end..]).Some?
    ensures EndLineAsWritten(text, m) + CountChar(text[m.start..m.end], '\n') == EndLine(text, m)
  {
    var block := text[m.end..];
    var idx := FirstUnmatchedClose(block).value;
    LineNumberSplit(text, m.start, m.end + idx);
    assert text[m.start..m.end + idx] == text[m.start..m.end] + block[..idx];
    CountCharConcat(text[m.start..m.end], block[..idx], '\n');
  }

  lemma NewlineThenClose()
    ensures FirstUnmatchedClose("\n}") == Some(1)
  {
    var block := "\n}";
    assert block[..1] == "\n" && block[..2] == block && block[1..] == "}" && "}"[1..] == [];
    assert Depth(block[..1]) == 0 && Depth(block[..2]) == -1;
    assert block[..0] == [];
    assert UnmatchedFrom(block, 1, 0) == Some(1);
  }

  /** For a one-line header followed by a brace on the next line and the closing brace on the line after that
      (for instance "static F()\n{\n}"), the end line as written is 2 although the closing brace is on line 3. */
  lemma AsWrittenEndLineIsEarly(header: string)
    requires NoNewline(header)
    ensures var text := header + "\n{\n}";
            var m := MethodMatch("F", "", 0, |header| + 2);
            text[|header| + 3] == '}' && EndLine(text, m) == 3 && EndLineAsWritten(text, m) == 2
  {
    var text := header + "\n{\n}";
    var m := MethodMatch("F", "", 0, |header| + 2);
    assert text[|header| + 2..] == "\n}";
    NewlineThenClose();
    assert text[..|header| + 3] == header + "\n{\n";
    CountCharConcat(header, "\n{\n", '\n');
    NoNewlineCount(header);
    assert "\n{\n"[1..] == "{\n" && "{\n"[1..] == "\n" && "\n"[1..] == [];
    assert EndLine(text, m) == 3;
    assert text[..0] == [] && "\n}"[..1] == "\n";
    assert EndLineAsWritten(text, m) == 2;
  }

  lemma {:induction false} NoNewlineCount(s: string)
    requires NoNewline(s)
    ensures CountChar(s, '\n') == 0
  {
    if s != [] {
      NoNewlineCount(s[1..]);
    }
  }

  predicate NoComma(s: string)
  {
    forall j :: 0 <= j < |s| ==> s[j] != ','
  }

  /** Two comma-free declarations joined by a comma count as two parameters, whatever brackets they hold. */
  lemma TwoPiecesCounted(a: string, b: string)
    requires NoComma(a) && NoComma(b)
    requires a != [] && !IsPyWhiteSpace(a[0]) && !IsPyWhiteSpace(a[|a| - 1])
    requires b != [] && !IsPyWhiteSpace(b[0]) && !IsPyWhiteSpace(b[|b| - 1])
    ensures ParameterCount(a + "," + b) == 2
  {
    var p := a + "," + b;
    StripKeepsWord(p);
    assert p == Join([a, b], ",");
    SplitJoin([a, b], ',');
    StripKeepsWord(a);
    StripKeepsWord(b);
    AllNonBlankCounted([a, b]);
  }

  /** The plain split does not respect generic arguments: "D<a,b> m" counts as two parameters. */
  lemma GenericArgumentsSplit()
    ensures ParameterCount("D<a,b> m") == 2
  {
    assert "D<a,b> m" == "D<a" + "," + "b> m";
    TwoPiecesCounted("D<a", "b> m");
  }

  lemma StripKeepsWord(s: string)
    requires s != [] && !IsPyWhiteSpace(s[0]) && !IsPyWhiteSpace(s[|s| - 1])
    ensures PyStrip(s) == s
  {
  }

  // ---------------------------------------------------------------------
  // build_dependency_graph
  // ---------------------------------------------------------------------

  /** One audited file: its metrics, its text, and the targets of its using directives (the USING_RE matches). */
  datatype AuditFile = AuditFile(metrics: FileMetrics, text: string, usings: seq<string>)

  /** `if not metrics.namespace`: a missing or empty namespace contributes nothing. */
  predicate HasNamespace(f: FileMetrics)
  {
    f.namespace.Some? && f.namespace.value != ""
  }

  predicate KeptUsing(u: string)
  {
    !StartsWith(u, "System")
  }

  /** The graph after the inner loop has added the kept usings of us under ns. */
  function AddUsings(g: map<string, set<string>>, ns: string, us: seq<string>): map<string, set<string>>
  {
    if us == [] then g
    else
      var g' := AddUsings(g, ns, us[..|us| - 1]);
      var u := us[|us| - 1];
      if KeptUsing(u) then g'[ns := (if ns in g' then g'[ns] else {}) + {u}] else g'
  }

  /** The defaultdict of sets after the outer loop has visited files. */
  function GraphOf(files: seq<AuditFile>): map<string, set<string>>
  {
    if files == [] then map[]
    else
      var f := files[|files| - 1];
      var g := GraphOf(files[..|files| - 1]);
      if HasNamespace(f.metrics) then AddUsings(g, f.metrics.namespace.value, f.usings) else g
  }

  /** The comprehension over the sorted items: each namespace with its sorted targets. */
  function SortedGraph(g: map<string, set<string>>): seq<(string, seq<string>)>
  {
    MapSeq(StringOrder.SortedOf(g.Keys), (k: string) requires k in g => (k, StringOrder.SortedOf(g[k])))
  }

  predicate HasEdge(g: map<string, set<string>>, n: string, u: string)
  {
    n in g && u in g[n]
  }

  /** File f has namespace ns and a using directive naming u, and u is not a System namespace. */
  predicate FileDeclares(f: AuditFile, ns: string, u: string)
  {
    HasNamespace(f.metrics) && f.metrics.namespace.value == ns && u in f.usings && KeptUsing(u)
  }

  predicate DeclaresEdge(files: seq<AuditFile>, ns: string, u: string)
  {
    exists f :: f in files && FileDeclares(f, ns, u)
  }

  lemma {:induction false} AddUsingsEdge(g: map<string, set<string>>, ns: string, us: seq<string>, n: string, u: string)
    ensures HasEdge(AddUsings(g, ns, us), n, u) <==> HasEdge(g, n, u) || (n == ns && KeptUsing(u) && u in us)
  {
    if us != [] {
      var prefix := us[..|us| - 1];
      AddUsingsEdge(g, ns, prefix, n, u);
      assert us == prefix + [us[|us| - 1]];
    }
  }

  lemma {:induction false} AddUsingsKeys(g: map<string, set<string>>, ns: string, us: seq<string>, n: string)
    ensures n in AddUsings(g, ns, us) <==> n in g || (n == ns && exists u :: u in us && KeptUsing(u))
    ensures n in AddUsings(g, ns, us) && (n in g ==> g[n] != {}) ==> AddUsings(g, ns, us)[n] != {}
  {
    if us != [] {
      var prefix := us[..|us| - 1];
      AddUsingsKeys(g, ns, prefix, n);
      assert us == prefix + [us[|us| - 1]];
      if n == ns && exists u :: u in us && KeptUsing(u) {
        var u :| u in us && KeptUsing(u);
        if u != us[|us| - 1] { assert u in prefix; }
      }
    }
  }

  lemma {:induction false} GraphOfEdge(files: seq<AuditFile>, n: string, u: string)
    ensures HasEdge(GraphOf(files), n, u) <==> DeclaresEdge(files, n, u)
  {
    if files != [] {
      var prefix := files[..|files| - 1];
      var f := files[|files| - 1];
      GraphOfEdge(prefix, n, u);
      if HasNamespace(f.metrics) {
        AddUsingsEdge(GraphOf(prefix), f.metrics.namespace.value, f.usings, n, u);
      }
      assert files == prefix + [f];
      if DeclaresEdge(files, n, u) {
        var h :| h in files && FileDeclares(h, n, u);
        if h != f { assert h in prefix; }
      }
      if DeclaresEdge(prefix, n, u) {
        var h :| h in prefix && FileDeclares(h, n, u);
        assert h in files;
      }
      if FileDeclares(f, n, u) {
        assert f in files;
      }
    }
  }

  lemma {:induction false} GraphOfKeys(files: seq<AuditFile>, n: string)
    ensures n in GraphOf(files) ==> GraphOf(files)[n] != {}
  {
    if files != [] {
      var prefix := files[..|files| - 1];
      var f := files[|files| - 1];
      GraphOfKeys(prefix, n);
      if HasNamespace(f.metrics) {
        AddUsingsKeys(GraphOf(prefix), f.metrics.namespace.value, f.usings, n);
      }
    }
  }

  method BuildDependencyGraph(files: seq<AuditFile>) returns (deps: seq<(string, seq<string>)>)
    ensures deps == SortedGraph(GraphOf(files))
  {
    var graph: map<string, set<string>> := map[];
    for i := 0 to |files|
      invariant graph == GraphOf(files[..i])
    {
      assert files[..i + 1][..i] == files[..i];
      var metrics := files[i].metrics;
      if metrics.namespace.None? || metrics.namespace.value == "" {
        continue;
      }
      var ns := metrics.namespace.value;
      var usings := files[i].usings;
      assert usings[..0] == [];
      for j := 0 to |usings|
        invariant graph == AddUsings(GraphOf(files[..i]), ns, usings[..j])
      {
        assert usings[..j + 1][..j] == usings[..j];
        var used := usings[j];
        if StartsWith(used, "System") {
          continue;
        }
        graph := graph[ns := (if ns in graph then graph[ns] else {}) + {used}];
      }
      assert usings[..|usings|] == usings;
    }
    assert files[..|files|] == files;
    deps := SortedGraph(graph);
  }

  /** The dependency map lists target u under namespace ns. */
  predicate Lists(deps: seq<(string, seq<string>)>, ns: string, u: string)
  {
    exists k :: 0 <= k < |deps| && deps[k].0 == ns && u in deps[k].1
  }

  /** build_dependency_graph lists the namespaces in ascending order, each with a non-empty ascending list of targets. */
  lemma DependencyGraphSorted(files: seq<AuditFile>)
    ensures var deps := SortedGraph(GraphOf(files));
            && (forall k, l :: 0 <= k < l < |deps| ==> StringOrder.Less(deps[k].0, deps[l].0))
            && (forall k :: 0 <= k < |deps| ==> StringOrder.StrictlySorted(deps[k].1) && deps[k].1 != [])
  {
    var g := GraphOf(files);
    var keys := StringOrder.SortedOf(g.Keys);
    var deps := SortedGraph(g);
    forall k | 0 <= k < |deps| ensures deps[k].1 != [] {
      GraphOfKeys(files, keys[k]);
      StringOrder.HasElement(g[keys[k]]);
      var u :| u in g[keys[k]];
      assert u in deps[k].1;
    }
  }

  /** build_dependency_graph lists u under ns exactly when a file of namespace ns uses u and u is not a System namespace. */
  lemma DependencyGraphEdges(files: seq<AuditFile>)
    ensures var deps := SortedGraph(GraphOf(files));
            forall ns, u :: Lists(deps, ns, u) <==> DeclaresEdge(files, ns, u)
  {
    var g := GraphOf(files);
    var keys := StringOrder.SortedOf(g.Keys);
    var deps := SortedGraph(g);
    forall ns, u ensures Lists(deps, ns, u) <==> DeclaresEdge(files, ns, u) {
      GraphOfEdge(files, ns, u);
      if HasEdge(g, ns, u) {
        var k :| 0 <= k < |keys| && keys[k] == ns;
        assert deps[k].0 == ns && u in deps[k].1;
      }
    }
  }

  // ---------------------------------------------------------------------
  // detect_duplicate_blocks
  // ---------------------------------------------------------------------

  /** The lines a window compares: every line right-stripped, the blank ones dropped. */
  function Normalize(lines: seq<string>): (r: seq<string>)
    ensures |r| <= |lines|
  {
    if lines == [] then []
    else
      var l := PyRStrip(lines[0]);
      (if PyStrip(l) != [] then [l] else []) + Normalize(lines[1..])
  }

  function NormalizedLines(text: string): seq<string>
  {
    Normalize(SplitLines(text))
  }

  predicate NoBoundary(s: string)
  {
    forall j :: 0 <= j < |s| ==> !IsLineBoundary(s[j])
  }

  /** A normalized line: non-blank, ending in a non-space, without a line break. */
  predicate CleanLine(s: string)
  {
    !IsPyBlank(s) && !IsPyWhiteSpace(s[|s| - 1]) && NoBoundary(s)
  }

  /** One line of the comprehension: the right-stripped line is kept exactly when the line is non-blank,
      and a kept line is clean when the line had no line break. */
  lemma NormalizedLine(line: string)
    ensures var l := PyRStrip(line);
            && (PyStrip(l) != [] <==> PyStrip(line) != [])
            && (PyStrip(l) != [] && NoBoundary(line) ==> CleanLine(l))
  {
    var l := PyRStrip(line);
    PyStripEmptyIff(l);
    PyStripEmptyIff(line);
    PyRStripBlankIff(line);
    TrimEndPrefix(line, PySpace);
    assert forall j :: 0 <= j < |l| ==> l[j] == line[j];
  }

  /** Every normalized line is clean, and there are as many of them as the file has source lines (its sloc). */
  lemma {:induction false} NormalizeFacts(lines: seq<string>)
    requires forall k :: 0 <= k < |lines| ==> NoBoundary(lines[k])
    ensures |Normalize(lines)| == CountNonBlank(lines)
    ensures forall k :: 0 <= k < |Normalize(lines)| ==> CleanLine(Normalize(lines)[k])
  {
    if lines != [] {
      NormalizeFacts(lines[1..]);
      NormalizedLine(lines[0]);
      var r := Normalize(lines);
      var rest := Normalize(lines[1..]);
      var l := PyRStrip(lines[0]);
      if PyStrip(l) != [] {
        assert r == [l] + rest;
        forall k | 0 <= k < |r| ensures CleanLine(r[k]) {
          if k > 0 {
            assert r[k] == rest[k - 1];
          }
        }
      } else {
        assert r == rest;
      }
    }
  }

  /** The normalized lines of a file are clean, and there are sloc of them. */
  lemma NormalizedLinesFacts(text: string)
    ensures |NormalizedLines(text)| == CountNonBlank(SplitLines(text))
    ensures forall k :: 0 <= k < |NormalizedLines(text)| ==> CleanLine(NormalizedLines(text)[k])
  {
    NormalizeFacts(SplitLines(text));
  }

  /** Where a window was taken: a file path and the 1-based index of its first normalized line. */
  datatype Occurrence = Occurrence(path: string, line: nat)

  datatype Window = Window(chunk: seq<string>, at: Occurrence)

  /** The first n windows of w consecutive lines. */
  function WindowsUpTo(path: string, ls: seq<string>, w: nat, n: nat): (r: seq<Window>)
    requires n == 0 || n - 1 + w <= |ls|
    ensures |r| == n
    ensures forall k :: 0 <= k < n ==> r[k] == Window(ls[k..k + w], Occurrence(path, k + 1))
  {
    if n == 0 then [] else WindowsUpTo(path, ls, w, n - 1) + [Window(ls[n - 1..n - 1 + w], Occurrence(path, n))]
  }

  /** The windows of one file: one per start index in range(len(normalized) - window + 1). */
  function FileWindows(path: string, ls: seq<string>, w: nat): (r: seq<Window>)
    ensures |r| == if |ls| < w then 0 else |ls| - w + 1
    ensures forall k :: 0 <= k < |r| ==> k + w <= |ls| && r[k] == Window(ls[k..k + w], Occurrence(path, k + 1))
  {
    WindowsUpTo(path, ls, w, if |ls| < w then 0 else |ls| - w + 1)
  }

  /** The windows of all files, file by file. */
  function AllWindows(files: seq<AuditFile>, w: nat): seq<Window>
  {
    if files == [] then []
    else
      var f := files[|files| - 1];
      AllWindows(files[..|files| - 1], w) + FileWindows(f.metrics.path, NormalizedLines(f.text), w)
  }

  /** The text a window's digest is taken of; the digest itself is not modelled. */
  function Key(win: Window): string
  {
    Join(win.chunk, "\n")
  }

  /** The (digest, occurrence) pairs appended to `seen`, in order. */
  function Pairs(ws: seq<Window>): (r: seq<(string, Occurrence)>)
    ensures |r| == |ws|
    ensures forall i :: 0 <= i < |ws| ==> r[i] == (Key(ws[i]), ws[i].at)
  {
    if ws == [] then [] else Pairs(ws[..|ws| - 1]) + [(Key(ws[|ws| - 1]), ws[|ws| - 1].at)]
  }

  /** The `chunks` dictionary: chunks.setdefault keeps the first chunk seen under each digest. */
  function FirstChunks(ws: seq<Window>): map<string, seq<string>>
  {
    if ws == [] then map[]
    else
      var m := FirstChunks(ws[..|ws| - 1]);
      var win := ws[|ws| - 1];
      if Key(win) in m then m else m[Key(win) := win.chunk]
  }

  lemma WindowsSnoc(ws: seq<Window>, win: Window)
    ensures Pairs(ws + [win]) == Pairs(ws) + [(Key(win), win.at)]
    ensures FirstChunks(ws + [win]) == if Key(win) in FirstChunks(ws) then FirstChunks(ws) else FirstChunks(ws)[Key(win) := win.chunk]
  {
    assert (ws + [win])[..|ws|] == ws;
  }

  /** `chunks` and `seen` have the same digests. */
  lemma {:induction false} ChunksKeys(ws: seq<Window>)
    ensures FirstChunks(ws).Keys == Grouping.Group(Pairs(ws)).Keys
  {
    if ws != [] {
      var prefix := ws[..|ws| - 1];
      var win := ws[|ws| - 1];
      ChunksKeys(prefix);
      assert ws == prefix + [win];
      WindowsSnoc(prefix, win);
      Grouping.GroupSnoc(Pairs(prefix), (Key(win), win.at));
    }
  }

  /** Every digest in `chunks` keeps the chunk of a window with that digest. */
  lemma {:induction false} FirstChunkOf(ws: seq<Window>, key: string)
    requires key in FirstChunks(ws)
    ensures exists i :: 0 <= i < |ws| && Key(ws[i]) == key && FirstChunks(ws)[key] == ws[i].chunk
  {
    var prefix := ws[..|ws| - 1];
    if key in FirstChunks(prefix) {
      FirstChunkOf(prefix, key);
      var i :| 0 <= i < |prefix| && Key(prefix[i]) == key && FirstChunks(prefix)[key] == prefix[i].chunk;
      assert ws[i] == prefix[i];
    } else {
      assert Key(ws[|ws| - 1]) == key;
    }
  }

  datatype DuplicateBlock = DuplicateBlock(hash: string, lines: seq<string>, occurrences: seq<Occurrence>)

  /** The set of paths among a digest's occurrences. */
  function PathsOf(occs: seq<Occurrence>): set<string>
  {
    set o | o in occs :: o.path
  }

  /** Every digest in `order` has its occurrences and its chunk recorded. */
  predicate Recorded(order: seq<string>, seen: map<string, seq<Occurrence>>, chunks: map<string, seq<string>>)
  {
    forall k :: 0 <= k < |order| ==> order[k] in seen && order[k] in chunks
  }

  /** The final comprehension over seen.items(): the digests, in first-seen order, that occur in more than one file. */
  function Report(order: seq<string>, seen: map<string, seq<Occurrence>>, chunks: map<string, seq<string>>): seq<DuplicateBlock>
    requires Recorded(order, seen, chunks)
  {
    if order == [] then []
    else
      var key := order[|order| - 1];
      Report(order[..|order| - 1], seen, chunks)
        + (if |PathsOf(seen[key])| > 1 then [DuplicateBlock(key, chunks[key], seen[key])] else [])
  }

  /** Every digest in first-seen order has its occurrences and its chunk recorded. */
  lemma OrderRecorded(ws: seq<Window>)
    ensures Recorded(Grouping.FirstSeen(Pairs(ws)), Grouping.Group(Pairs(ws)), FirstChunks(ws))
  {
    Grouping.GroupIsValues(Pairs(ws));
    ChunksKeys(ws);
  }

  /** The report built from the windows ws, in scanning order. */
  function BlocksOf(ws: seq<Window>): seq<DuplicateBlock>
  {
    OrderRecorded(ws);
    Report(Grouping.FirstSeen(Pairs(ws)), Grouping.Group(Pairs(ws)), FirstChunks(ws))
  }

  function DuplicateBlocksOf(files: seq<AuditFile>, w: nat): seq<DuplicateBlock>
  {
    BlocksOf(AllWindows(files, w))
  }

  /** The three dictionaries of detect_duplicate_blocks after the windows ws. */
  predicate SeenAfter(ws: seq<Window>, seen: map<string, seq<Occurrence>>, order: seq<string>, chunks: map<string, seq<string>>)
  {
    seen == Grouping.Group(Pairs(ws)) && order == Grouping.FirstSeen(Pairs(ws)) && chunks == FirstChunks(ws)
  }

  /** One window: its occurrence appended under its digest, the digest ordered on first sight, its chunk set by default. */
  lemma SeenStep(ws: seq<Window>, win: Window, seen: map<string, seq<Occurrence>>, order: seq<string>, chunks: map<string, seq<string>>)
    requires SeenAfter(ws, seen, order, chunks)
    ensures var key := Key(win);
            SeenAfter(ws + [win], seen[key := (if key in seen then seen[key] else []) + [win.at]],
                      if key in order then order else order + [key],
                      if key in chunks then chunks else chunks[key := win.chunk])
  {
    WindowsSnoc(ws, win);
    Grouping.GroupSnoc(Pairs(ws), (Key(win), win.at));
  }

  /** The inner loop of detect_duplicate_blocks over the windows of one file. */
  method ScanFile(path: string, normalized: seq<string>, window: nat, seen0: map<string, seq<Occurrence>>, order0: seq<string>,
                  chunks0: map<string, seq<string>>, ghost ws0: seq<Window>)
    returns (seen: map<string, seq<Occurrence>>, order: seq<string>, chunks: map<string, seq<string>>)
    requires SeenAfter(ws0, seen0, order0, chunks0)
    ensures SeenAfter(ws0 + FileWindows(path, normalized, window), seen, order, chunks)
  {
    seen, order, chunks := seen0, order0, chunks0;
    ghost var fw := FileWindows(path, normalized, window);
    var count := if |normalized| < window then 0 else |normalized| - window + 1;
    assert ws0 + fw[..0] == ws0;
    for idx := 0 to count
      invariant SeenAfter(ws0 + fw[..idx], seen, order, chunks)
    {
      var chunk := normalized[idx..idx + window];
      var digest := Join(chunk, "\n");
      var occ := Occurrence(path, idx + 1);
      assert fw[idx] == Window(chunk, occ);
      SeenStep(ws0 + fw[..idx], Window(chunk, occ), seen, order, chunks);
      seen := seen[digest := (if digest in seen then seen[digest] else []) + [occ]];
      if digest !in order {
        order := order + [digest];
      }
      if digest !in chunks {
        chunks := chunks[digest := chunk];
      }
      ExtendBySlice(ws0, fw, idx);
    }
    assert fw[..count] == fw;
  }

  /** The file loop of detect_duplicate_blocks: the windows of every file scanned in order. */
  method ScanFiles(files: seq<AuditFile>, window: nat)
    returns (seen: map<string, seq<Occurrence>>, order: seq<string>, chunks: map<string, seq<string>>)
    ensures SeenAfter(AllWindows(files, window), seen, order, chunks)
  {
    seen, order, chunks := map[], [], map[];
    for i := 0 to |files|
      invariant SeenAfter(AllWindows(files[..i], window), seen, order, chunks)
    {
      assert files[..i + 1][..i] == files[..i];
      var normalized := NormalizedLines(files[i].text);
      seen, order, chunks := ScanFile(files[i].metrics.path, normalized, window, seen, order, chunks, AllWindows(files[..i], window));
    }
    assert files[..|files|] == files;
  }

  /** The final comprehension over seen.items(): the digests seen in more than one file, in first-seen order. */
  method ReportBlocks(order: seq<string>, seen: map<string, seq<Occurrence>>, chunks: map<string, seq<string>>)
    returns (dups: seq<DuplicateBlock>)
    requires Recorded(order, seen, chunks)
    ensures dups == Report(order, seen, chunks)
  {
    dups := [];
    for k := 0 to |order|
      invariant dups == Report(order[..k], seen, chunks)
    {
      assert order[..k + 1][..k] == order[..k];
      var key := order[k];
      var paths := set o | o in seen[key] :: o.path;
      if |paths| > 1 {
        dups := dups + [DuplicateBlock(key, chunks[key], seen[key])];
      }
    }
    assert order[..|order|] == order;
  }

  method DetectDuplicateBlocks(files: seq<AuditFile>, window: nat) returns (dups: seq<DuplicateBlock>)
    ensures dups == DuplicateBlocksOf(files, window)
  {
    var seen, order, chunks := ScanFiles(files, window);
    OrderRecorded(AllWindows(files, window));
    dups := ReportBlocks(order, seen, chunks);
  }

  /** File f has path o.path, and lines is the run of w of its normalized lines starting at line o.line. */
  predicate WindowIn(f: AuditFile, w: nat, o: Occurrence, lines: seq<string>)
  {
    var ls := NormalizedLines(f.text);
    f.metrics.path == o.path && 1 <= o.line && o.line - 1 + w <= |ls| && ls[o.line - 1..o.line - 1 + w] == lines
  }

  predicate WindowOf(files: seq<AuditFile>, w: nat, o: Occurrence, lines: seq<string>)
  {
    exists f :: f in files && WindowIn(f, w, o, lines)
  }

  lemma FileWindowIn(f: AuditFile, w: nat, win: Window)
    requires win in FileWindows(f.metrics.path, NormalizedLines(f.text), w)
    ensures WindowIn(f, w, win.at, win.chunk)
  {
    var fw := FileWindows(f.metrics.path, NormalizedLines(f.text), w);
    var k :| 0 <= k < |fw| && fw[k] == win;
  }

  lemma {:induction false} WindowOrigin(files: seq<AuditFile>, w: nat, win: Window)
    requires win in AllWindows(files, w)
    ensures WindowOf(files, w, win.at, win.chunk)
  {
    var prefix := files[..|files| - 1];
    var last := files[|files| - 1];
    assert AllWindows(files, w) == AllWindows(prefix, w) + FileWindows(last.metrics.path, NormalizedLines(last.text), w);
    if win in AllWindows(prefix, w) {
      WindowOrigin(prefix, w, win);
      var f :| f in prefix && WindowIn(f, w, win.at, win.chunk);
      assert f in files;
    } else {
      FileWindowIn(last, w, win);
      assert last in files;
    }
  }

  /** Every window holds w lines, none with a line break. */
  lemma WindowShape(files: seq<AuditFile>, w: nat, win: Window)
    requires win in AllWindows(files, w)
    ensures |win.chunk| == w && forall j :: 0 <= j < w ==> NoBoundary(win.chunk[j])
  {
    WindowOrigin(files, w, win);
    var f :| f in files && WindowIn(f, w, win.at, win.chunk);
    CleanWindow(NormalizedLines(f.text), win.at.line - 1, w, win.chunk, f.text);
  }

  /** A run of w normalized lines holds w lines without a line break. */
  lemma CleanWindow(ls: seq<string>, start: nat, w: nat, chunk: seq<string>, text: string)
    requires ls == NormalizedLines(text)
    requires start + w <= |ls| && chunk == ls[start..start + w]
    ensures |chunk| == w && forall j :: 0 <= j < w ==> NoBoundary(chunk[j])
  {
    NormalizedLinesFacts(text);
    forall j | 0 <= j < w ensures NoBoundary(chunk[j]) {
      assert chunk[j] == ls[start + j];
      assert CleanLine(ls[start + j]);
    }
  }

  /** Two windows with the same digest text hold the same lines: keying by the joined text loses nothing. */
  lemma SameKeySameChunk(files: seq<AuditFile>, w: nat, a: Window, b: Window)
    requires a in AllWindows(files, w) && b in AllWindows(files, w)
    requires Key(a) == Key(b)
    ensures a.chunk == b.chunk
  {
    WindowShape(files, w, a);
    WindowShape(files, w, b);
    if w > 0 {
      SplitJoin(a.chunk, '\n');
      SplitJoin(b.chunk, '\n');
    }
  }

  /** A digest spans files when two of its occurrences have different paths. */
  predicate SpansFiles(occs: seq<Occurrence>)
  {
    exists i, j :: 0 <= i < |occs| && 0 <= j < |occs| && occs[i].path != occs[j].path
  }

  /** len({path for path, _ in occurrences}) > 1 exactly when the occurrences span files. */
  lemma MoreThanOnePath(occs: seq<Occurrence>)
    ensures |PathsOf(occs)| > 1 <==> SpansFiles(occs)
  {
    var paths := PathsOf(occs);
    if SpansFiles(occs) {
      var i, j :| 0 <= i < |occs| && 0 <= j < |occs| && occs[i].path != occs[j].path;
      assert occs[i] in occs && occs[j] in occs;
      assert occs[j].path in paths - {occs[i].path};
      assert |paths| == |paths - {occs[i].path}| + 1;
    }
    if |paths| > 1 {
      var p :| p in paths;
      assert |paths - {p}| == |paths| - 1;
      var q :| q in paths - {p};
      var op :| op in occs && op.path == p;
      var oq :| oq in occs && oq.path == q;
      var i :| 0 <= i < |occs| && occs[i] == op;
      var j :| 0 <= j < |occs| && occs[j] == oq;
    }
  }

  /** Every reported block is a first-seen digest that spans files, with its chunk and its occurrences. */
  lemma {:induction false} InReport(order: seq<string>, seen: map<string, seq<Occurrence>>, chunks: map<string, seq<string>>,
                                    b: DuplicateBlock)
    requires Recorded(order, seen, chunks)
    requires b in Report(order, seen, chunks)
    ensures b.hash in order && b.hash in seen && b.hash in chunks
    ensures b.lines == chunks[b.hash] && b.occurrences == seen[b.hash] && |PathsOf(b.occurrences)| > 1
  {
    var prefix := order[..|order| - 1];
    if b in Report(prefix, seen, chunks) {
      InReport(prefix, seen, chunks, b);
    }
  }

  /** Every first-seen digest that spans files is reported. */
  lemma {:induction false} ReportHas(order: seq<string>, seen: map<string, seq<Occurrence>>, chunks: map<string, seq<string>>,
                                     key: string)
    requires Recorded(order, seen, chunks)
    requires key in order && |PathsOf(seen[key])| > 1
    ensures DuplicateBlock(key, chunks[key], seen[key]) in Report(order, seen, chunks)
  {
    var prefix := order[..|order| - 1];
    if key != order[|order| - 1] {
      assert key in prefix;
      ReportHas(prefix, seen, chunks, key);
    }
  }

  predicate DistinctHashes(r: seq<DuplicateBlock>)
  {
    forall k, l :: 0 <= k < l < |r| ==> r[k].hash != r[l].hash
  }

  /** No digest is reported twice. */
  lemma {:induction false} ReportDistinct(order: seq<string>, seen: map<string, seq<Occurrence>>, chunks: map<string, seq<string>>)
    requires Recorded(order, seen, chunks)
    requires Distinct(order)
    ensures DistinctHashes(Report(order, seen, chunks))
  {
    if order != [] {
      var prefix := order[..|order| - 1];
      var key := order[|order| - 1];
      var before := Report(prefix, seen, chunks);
      assert forall i :: 0 <= i < |prefix| ==> prefix[i] == order[i];
      ReportDistinct(prefix, seen, chunks);
      forall k | 0 <= k < |before| ensures before[k].hash != key {
        InReport(prefix, seen, chunks, before[k]);
        var i :| 0 <= i < |prefix| && prefix[i] == before[k].hash;
        assert order[i] != order[|order| - 1];
      }
      if |PathsOf(seen[key])| > 1 {
        var r := Report(order, seen, chunks);
        assert r == before + [DuplicateBlock(key, chunks[key], seen[key])];
        forall k, l | 0 <= k < l < |r| ensures r[k].hash != r[l].hash {
          if l == |before| {
            assert r[k] == before[k] && r[l].hash == key;
          } else {
            assert r[k] == before[k] && r[l] == before[l];
          }
        }
      }
    }
  }

  /** Windows with the same digest text hold the same lines. */
  predicate KeysDetermineChunks(ws: seq<Window>)
  {
    forall i, j :: 0 <= i < |ws| && 0 <= j < |ws| && Key(ws[i]) == Key(ws[j]) ==> ws[i].chunk == ws[j].chunk
  }

  lemma AllWindowsKeyed(files: seq<AuditFile>, w: nat)
    ensures KeysDetermineChunks(AllWindows(files, w))
  {
    var ws := AllWindows(files, w);
    forall i, j | 0 <= i < |ws| && 0 <= j < |ws| && Key(ws[i]) == Key(ws[j]) ensures ws[i].chunk == ws[j].chunk {
      SameKeySameChunk(files, w, ws[i], ws[j]);
    }
  }

  /** No digest is reported twice. */
  lemma BlocksDistinct(ws: seq<Window>)
    ensures DistinctHashes(BlocksOf(ws))
  {
    OrderRecorded(ws);
    Grouping.GroupIsValues(Pairs(ws));
    ReportDistinct(Grouping.FirstSeen(Pairs(ws)), Grouping.Group(Pairs(ws)), FirstChunks(ws));
  }

  /** A reported block spans files, and each of its occurrences is a window holding the block's lines. */
  lemma BlockOccurrences(ws: seq<Window>, b: DuplicateBlock)
    requires KeysDetermineChunks(ws)
    requires b in BlocksOf(ws)
    ensures SpansFiles(b.occurrences)
    ensures forall o :: o in b.occurrences ==> Window(b.lines, o) in ws
  {
    var ps := Pairs(ws);
    var key := b.hash;
    OrderRecorded(ws);
    InReport(Grouping.FirstSeen(ps), Grouping.Group(ps), FirstChunks(ws), b);
    Grouping.GroupAt(ps, key);
    MoreThanOnePath(b.occurrences);
    FirstChunkOf(ws, key);
    var i :| 0 <= i < |ws| && Key(ws[i]) == key && FirstChunks(ws)[key] == ws[i].chunk;
    forall o | o in b.occurrences ensures Window(b.lines, o) in ws {
      Grouping.ValuesOfPaired(ps, key, o);
      var j :| 0 <= j < |ps| && ps[j] == (key, o);
      assert ws[j].chunk == ws[i].chunk;
      assert ws[j] == Window(b.lines, o);
    }
  }

  /** Two windows in different files holding the same lines are occurrences of one reported block. */
  lemma BlocksComplete(ws: seq<Window>, i: nat, j: nat)
    requires KeysDetermineChunks(ws)
    requires i < |ws| && j < |ws| && ws[i].chunk == ws[j].chunk && ws[i].at.path != ws[j].at.path
    ensures exists blk :: blk in BlocksOf(ws) && blk.lines == ws[i].chunk && ws[i].at in blk.occurrences && ws[j].at in blk.occurrences
  {
    var ps := Pairs(ws);
    var seen := Grouping.Group(ps);
    var key := Key(ws[i]);
    OrderRecorded(ws);
    Grouping.PairedInValues(ps, i);
    Grouping.PairedInValues(ps, j);
    Grouping.GroupAt(ps, key);
    ChunksKeys(ws);
    FirstChunkOf(ws, key);
    var c :| 0 <= c < |ws| && Key(ws[c]) == key && FirstChunks(ws)[key] == ws[c].chunk;
    assert ws[c].chunk == ws[i].chunk;
    var occs := seen[key];
    var oi :| 0 <= oi < |occs| && occs[oi] == ws[i].at;
    var oj :| 0 <= oj < |occs| && occs[oj] == ws[j].at;
    MoreThanOnePath(occs);
    ReportHas(Grouping.FirstSeen(ps), seen, FirstChunks(ws), key);
  }

  /** What detect_duplicate_blocks reports: distinct digests, each a block of `window` lines found in more than one
      file, every occurrence being that block of lines in its file at its 1-based position. */
  lemma DuplicateBlocksSound(files: seq<AuditFile>, w: nat)
    ensures var dups := DuplicateBlocksOf(files, w);
            && DistinctHashes(dups)
            && forall b :: b in dups ==>
                 |b.lines| == w && SpansFiles(b.occurrences) && forall o :: o in b.occurrences ==> WindowOf(files, w, o, b.lines)
  {
    var ws := AllWindows(files, w);
    AllWindowsKeyed(files, w);
    BlocksDistinct(ws);
    forall b | b in BlocksOf(ws)
      ensures |b.lines| == w && SpansFiles(b.occurrences) && forall o :: o in b.occurrences ==> WindowOf(files, w, o, b.lines)
    {
      BlockOccurrences(ws, b);
      WindowShape(files, w, Window(b.lines, b.occurrences[0]));
      forall o | o in b.occurrences ensures WindowOf(files, w, o, b.lines) {
        WindowOrigin(files, w, Window(b.lines, o));
      }
    }
  }

  /** Conversely, two windows in different files holding the same lines are both occurrences of one reported block. */
  lemma DuplicateBlocksComplete(files: seq<AuditFile>, w: nat, a: Window, b: Window)
    requires a in AllWindows(files, w) && b in AllWindows(files, w)
    requires a.chunk == b.chunk && a.at.path != b.at.path
    ensures exists blk :: blk in DuplicateBlocksOf(files, w) && blk.lines == a.chunk && a.at in blk.occurrences && b.at in blk.occurrences
  {
    var ws := AllWindows(files, w);
    AllWindowsKeyed(files, w);
    var i :| 0 <= i < |ws| && ws[i] == a;
    var j :| 0 <= j < |ws| && ws[j] == b;
    BlocksComplete(ws, i, j);
  }

  // ---------------------------------------------------------------------
  // classify_issues
  // ---------------------------------------------------------------------

  datatype Priority = P0 | P1 | P2

  /** The issue types with the figures their messages quote; the message text itself is not modelled. */
  datatype IssueKind =
    | LargeFile(path: string, loc: nat, methods: nat)
    | Documentation(path: string, undocumented: nat, methods: nat)
    | HighComplexity(path: string, name: string, complexity: nat)
    | Duplication(fragments: nat)
    | Coupling

  datatype Issue = Issue(priority: Priority, kind: IssueKind)

  /** What the audit collects: the per-file metrics, the dependency map in key order, and the duplicate blocks. */
  datatype RepositoryMetrics = RepositoryMetrics(files: seq<FileMetrics>, dependencies: seq<(string, seq<string>)>,
                                                 duplicateBlocks: seq<DuplicateBlock>)

  predicate IsLarge(f: FileMetrics) { f.loc > 400 || f.MethodCount() > 25 }

  predicate Undocumented(m: MethodMetrics) { !m.docPresent }

  predicate IsComplex(m: MethodMetrics) { m.complexity > 10 }

  predicate IsP0(i: Issue) { i.priority == P0 }

  predicate IsDuplication(i: Issue) { i.kind.Duplication? }

  /** One P0 HighComplexity issue per method of complexity above 10, in method order. */
  function ComplexIssues(path: string, ms: seq<MethodMetrics>): (r: seq<Issue>)
    ensures |r| == Count(ms, IsComplex)
  {
    if ms == [] then []
    else
      var m := ms[|ms| - 1];
      ComplexIssues(path, ms[..|ms| - 1]) + (if IsComplex(m) then [Issue(P0, HighComplexity(path, m.name, m.complexity))] else [])
  }

  lemma ComplexIssuesSnoc(path: string, ms: seq<MethodMetrics>, j: nat)
    requires j < |ms|
    ensures ComplexIssues(path, ms[..j + 1])
            == ComplexIssues(path, ms[..j]) + (if IsComplex(ms[j]) then [Issue(P0, HighComplexity(path, ms[j].name, ms[j].complexity))] else [])
  {
    assert ms[..j + 1][..j] == ms[..j];
  }

  /** The P1 LargeFile issue of a file, if it has one. */
  function LargeFileIssues(f: FileMetrics): seq<Issue>
  {
    if IsLarge(f) then [Issue(P1, LargeFile(f.path, f.loc, f.MethodCount()))] else []
  }

  /** The P2 Documentation issue of a file, if it has one. */
  function DocumentationIssues(f: FileMetrics): seq<Issue>
  {
    var undocumented := Count(f.methods, Undocumented);
    if undocumented > 0 && f.MethodCount() > 0 then [Issue(P2, Documentation(f.path, undocumented, f.MethodCount()))] else []
  }

  /** The issues one file contributes, in the order they are appended. */
  function FileIssues(f: FileMetrics): seq<Issue>
  {
    LargeFileIssues(f) + DocumentationIssues(f) + ComplexIssues(f.path, f.methods)
  }

  function FilesIssues(files: seq<FileMetrics>): seq<Issue>
  {
    if files == [] then [] else FilesIssues(files[..|files| - 1]) + FileIssues(files[|files| - 1])
  }

  /** sum(len(v) for v in dependencies.values()). */
  function TotalEdges(deps: seq<(string, seq<string>)>): nat
  {
    if deps == [] then 0 else TotalEdges(deps[..|deps| - 1]) + |deps[|deps| - 1].1|
  }

  function IssuesOf(m: RepositoryMetrics): seq<Issue>
  {
    FilesIssues(m.files)
    + (if m.duplicateBlocks != [] then [Issue(P1, Duplication(|m.duplicateBlocks|))] else [])
    + (if TotalEdges(m.dependencies) > |m.dependencies| * 3 then [Issue(P1, Coupling)] else [])
  }

  /** The body of the per-file loop of classify_issues: appends the issues of one file. */
  method AppendFileIssues(issues0: seq<Issue>, f: FileMetrics) returns (issues: seq<Issue>)
    ensures issues == issues0 + FileIssues(f)
  {
    issues := issues0;
    if f.loc > 400 || |f.methods| > 25 {
      issues := issues + [Issue(P1, LargeFile(f.path, f.loc, |f.methods|))];
    }
    assert issues == issues0 + LargeFileIssues(f);
    var undocumented := Count(f.methods, Undocumented);
    if undocumented > 0 && |f.methods| > 0 {
      issues := issues + [Issue(P2, Documentation(f.path, undocumented, |f.methods|))];
    }
    assert issues == issues0 + LargeFileIssues(f) + DocumentationIssues(f);
    ghost var head := issues;
    for j := 0 to |f.methods|
      invariant issues == head + ComplexIssues(f.path, f.methods[..j])
    {
      ComplexIssuesSnoc(f.path, f.methods, j);
      var record := f.methods[j];
      if record.complexity > 10 {
        AppendAssoc(head, ComplexIssues(f.path, f.methods[..j]), [Issue(P0, HighComplexity(f.path, record.name, record.complexity))]);
        issues := issues + [Issue(P0, HighComplexity(f.path, record.name, record.complexity))];
      } else {
        assert ComplexIssues(f.path, f.methods[..j]) + [] == ComplexIssues(f.path, f.methods[..j]);
      }
    }
    assert f.methods[..|f.methods|] == f.methods;
    AppendAssoc(issues0 + LargeFileIssues(f), DocumentationIssues(f), ComplexIssues(f.path, f.methods));
    AppendAssoc(issues0, LargeFileIssues(f), DocumentationIssues(f) + ComplexIssues(f.path, f.methods));
  }

  method ClassifyIssues(m: RepositoryMetrics) returns (issues: seq<Issue>)
    ensures issues == IssuesOf(m)
  {
    issues := [];
    for i := 0 to |m.files|
      invariant issues == FilesIssues(m.files[..i])
    {
      assert m.files[..i + 1][..i] == m.files[..i];
      issues := AppendFileIssues(issues, m.files[i]);
    }
    assert m.files[..|m.files|] == m.files;
    if m.duplicateBlocks != [] {
      issues := issues + [Issue(P1, Duplication(|m.duplicateBlocks|))];
    }
    var edges := TotalEdges(m.dependencies);
    if edges > |m.dependencies| * 3 {
      issues := issues + [Issue(P1, Coupling)];
    }
  }

  lemma {:induction false} ComplexIssueFrom(path: string, ms: seq<MethodMetrics>, i: Issue)
    requires i in ComplexIssues(path, ms)
    ensures exists k :: 0 <= k < |ms| && IsComplex(ms[k]) && i == Issue(P0, HighComplexity(path, ms[k].name, ms[k].complexity))
  {
    var prefix := ms[..|ms| - 1];
    if i in ComplexIssues(path, prefix) {
      ComplexIssueFrom(path, prefix, i);
      var k :| 0 <= k < |prefix| && IsComplex(prefix[k]) && i == Issue(P0, HighComplexity(path, prefix[k].name, prefix[k].complexity));
      assert ms[k] == prefix[k];
    }
  }

  /** Every issue of a file is its LargeFile issue, its Documentation issue or the HighComplexity issue of one of
      its methods, each only under its condition. */
  lemma FileIssueCases(f: FileMetrics, i: Issue)
    requires i in FileIssues(f)
    ensures || (i == Issue(P1, LargeFile(f.path, f.loc, f.MethodCount())) && IsLarge(f))
            || (i == Issue(P2, Documentation(f.path, Count(f.methods, Undocumented), f.MethodCount()))
                && Count(f.methods, Undocumented) > 0)
            || (exists k :: 0 <= k < |f.methods| && IsComplex(f.methods[k])
                            && i == Issue(P0, HighComplexity(f.path, f.methods[k].name, f.methods[k].complexity)))
  {
    if i in ComplexIssues(f.path, f.methods) {
      ComplexIssueFrom(f.path, f.methods, i);
    }
  }

  lemma {:induction false} FilesIssueFrom(files: seq<FileMetrics>, i: Issue)
    requires i in FilesIssues(files)
    ensures exists g :: g in files && i in FileIssues(g)
  {
    var prefix := files[..|files| - 1];
    if i in FilesIssues(prefix) {
      FilesIssueFrom(prefix, i);
      var g :| g in prefix && i in FileIssues(g);
      assert g in files;
    } else {
      assert files[|files| - 1] in files;
    }
  }

  lemma {:induction false} FilesIssueIn(files: seq<FileMetrics>, g: FileMetrics, i: Issue)
    requires g in files && i in FileIssues(g)
    ensures i in FilesIssues(files)
  {
    var prefix := files[..|files| - 1];
    if g != files[|files| - 1] {
      assert g in prefix;
      FilesIssueIn(prefix, g, i);
    }
  }

  /** Every issue comes from a file, or is the single Duplication or Coupling issue under its condition. */
  lemma IssueCases(m: RepositoryMetrics, i: Issue)
    requires i in IssuesOf(m)
    ensures || (exists g :: g in m.files && i in FileIssues(g))
            || (i == Issue(P1, Duplication(|m.duplicateBlocks|)) && m.duplicateBlocks != [])
            || (i == Issue(P1, Coupling) && TotalEdges(m.dependencies) > |m.dependencies| * 3)
  {
    if i in FilesIssues(m.files) {
      FilesIssueFrom(m.files, i);
    }
  }

  /** How many methods of all files have complexity above 10. */
  function ComplexMethodCount(files: seq<FileMetrics>): nat
  {
    if files == [] then 0 else ComplexMethodCount(files[..|files| - 1]) + Count(files[|files| - 1].methods, IsComplex)
  }

  lemma FileP0Count(f: FileMetrics)
    ensures Count(FileIssues(f), IsP0) == Count(f.methods, IsComplex)
  {
    var c := ComplexIssues(f.path, f.methods);
    CountConcat(LargeFileIssues(f) + DocumentationIssues(f), c, IsP0);
    CountConcat(LargeFileIssues(f), DocumentationIssues(f), IsP0);
    CountNone(LargeFileIssues(f), IsP0);
    CountNone(DocumentationIssues(f), IsP0);
    forall k | 0 <= k < |c| ensures IsP0(c[k]) {
      ComplexIssueFrom(f.path, f.methods, c[k]);
    }
    CountAll(c, IsP0);
  }

  lemma {:induction false} FilesP0Count(files: seq<FileMetrics>)
    ensures Count(FilesIssues(files), IsP0) == ComplexMethodCount(files)
  {
    if files != [] {
      FilesP0Count(files[..|files| - 1]);
      FileP0Count(files[|files| - 1]);
      CountConcat(FilesIssues(files[..|files| - 1]), FileIssues(files[|files| - 1]), IsP0);
    }
  }

  /** classify_issues raises one P0 issue per method of complexity above 10, and every P0 issue is the
      HighComplexity issue of such a method. */
  lemma HighComplexityIssues(m: RepositoryMetrics)
    ensures Count(IssuesOf(m), IsP0) == ComplexMethodCount(m.files)
    ensures forall i :: i in IssuesOf(m) && IsP0(i) ==>
              exists f, k :: f in m.files && 0 <= k < |f.methods| && IsComplex(f.methods[k])
                             && i == Issue(P0, HighComplexity(f.path, f.methods[k].name, f.methods[k].complexity))
  {
    var tail := (if m.duplicateBlocks != [] then [Issue(P1, Duplication(|m.duplicateBlocks|))] else [])
                + (if TotalEdges(m.dependencies) > |m.dependencies| * 3 then [Issue(P1, Coupling)] else []);
    assert IssuesOf(m) == FilesIssues(m.files) + tail;
    FilesP0Count(m.files);
    CountConcat(FilesIssues(m.files), tail, IsP0);
    CountNone(tail, IsP0);
    forall i | i in IssuesOf(m) && IsP0(i)
      ensures exists f, k :: f in m.files && 0 <= k < |f.methods| && IsComplex(f.methods[k])
                             && i == Issue(P0, HighComplexity(f.path, f.methods[k].name, f.methods[k].complexity))
    {
      IssueCases(m, i);
      var g :| g in m.files && i in FileIssues(g);
      FileIssueCases(g, i);
    }
  }

  /** A file gets its P1 LargeFile issue exactly when it has more than 400 lines or more than 25 methods. */
  lemma LargeFileIff(m: RepositoryMetrics, f: FileMetrics)
    requires f in m.files
    ensures Issue(P1, LargeFile(f.path, f.loc, f.MethodCount())) in IssuesOf(m) <==> IsLarge(f)
  {
    var i := Issue(P1, LargeFile(f.path, f.loc, f.MethodCount()));
    if IsLarge(f) {
      assert i in FileIssues(f);
      FilesIssueIn(m.files, f, i);
    }
    if i in IssuesOf(m) {
      IssueCases(m, i);
      var g :| g in m.files && i in FileIssues(g);
      FileIssueCases(g, i);
    }
  }

  /** A file gets its P2 Documentation issue exactly when one of its methods has no doc comment. */
  lemma DocumentationIff(m: RepositoryMetrics, f: FileMetrics)
    requires f in m.files
    ensures Issue(P2, Documentation(f.path, Count(f.methods, Undocumented), f.MethodCount())) in IssuesOf(m)
            <==> exists k :: 0 <= k < |f.methods| && !f.methods[k].docPresent
  {
    var i := Issue(P2, Documentation(f.path, Count(f.methods, Undocumented), f.MethodCount()));
    CountPositive(f.methods, Undocumented);
    if Count(f.methods, Undocumented) > 0 {
      assert i in FileIssues(f);
      FilesIssueIn(m.files, f, i);
    }
    if i in IssuesOf(m) {
      IssueCases(m, i);
      var g :| g in m.files && i in FileIssues(g);
      FileIssueCases(g, i);
    }
  }

  /** There is exactly one Duplication issue when duplicate blocks exist, and none otherwise. */
  lemma DuplicationIssueOnce(m: RepositoryMetrics)
    ensures Count(IssuesOf(m), IsDuplication) == if m.duplicateBlocks == [] then 0 else 1
  {
    var dup := if m.duplicateBlocks != [] then [Issue(P1, Duplication(|m.duplicateBlocks|))] else [];
    var coupling := if TotalEdges(m.dependencies) > |m.dependencies| * 3 then [Issue(P1, Coupling)] else [];
    var fileIssues := FilesIssues(m.files);
    assert IssuesOf(m) == fileIssues + dup + coupling;
    forall k | 0 <= k < |fileIssues| ensures !IsDuplication(fileIssues[k]) {
      FilesIssueFrom(m.files, fileIssues[k]);
      var g :| g in m.files && fileIssues[k] in FileIssues(g);
      FileIssueCases(g, fileIssues[k]);
    }
    CountNone(fileIssues, IsDuplication);
    CountNone(coupling, IsDuplication);
    CountConcat(fileIssues + dup, coupling, IsDuplication);
    CountConcat(fileIssues, dup, IsDuplication);
  }

  /** The Coupling issue is raised exactly when the dependency map has more than three edges per namespace. */
  lemma CouplingIff(m: RepositoryMetrics)
    ensures Issue(P1, Coupling) in IssuesOf(m) <==> TotalEdges(m.dependencies) > |m.dependencies| * 3
  {
    var i := Issue(P1, Coupling);
    if i in IssuesOf(m) {
      IssueCases(m, i);
      if exists g :: g in m.files && i in FileIssues(g) {
        var g :| g in m.files && i in FileIssues(g);
        FileIssueCases(g, i);
      }
    }
  }

  // ---------------------------------------------------------------------
  // summarise_metrics
  // ---------------------------------------------------------------------

  /** The integer figures of the summary; the averages are not modelled. */
  datatype Summary = Summary(files: nat, totalLoc: nat, maxComplexity: nat, duplicateFragments: nat)

  function TotalLoc(files: seq<FileMetrics>): nat
  {
    if files == [] then 0 else TotalLoc(files[..|files| - 1]) + files[|files| - 1].loc
  }

  function MethodComplexities(ms: seq<MethodMetrics>): (r: seq<nat>)
    ensures |r| == |ms|
  {
    if ms == [] then [] else MethodComplexities(ms[..|ms| - 1]) + [ms[|ms| - 1].complexity]
  }

  /** [m.complexity for f in files for m in f.methods]. */
  function Complexities(files: seq<FileMetrics>): seq<nat>
  {
    if files == [] then [] else Complexities(files[..|files| - 1]) + MethodComplexities(files[|files| - 1].methods)
  }

  /** max(xs) if xs else 0. */
  function MaxOf(xs: seq<nat>): nat
  {
    if xs == [] then 0 else Max(MaxOf(xs[..|xs| - 1]), xs[|xs| - 1])
  }

  function SummaryOf(m: RepositoryMetrics): Summary
  {
    Summary(|m.files|, TotalLoc(m.files), MaxOf(Complexities(m.files)), |m.duplicateBlocks|)
  }

  /** The maximum bounds every element and is one of them; it is 0 for an empty list. */
  lemma {:induction false} MaxOfFacts(xs: seq<nat>)
    ensures forall i :: 0 <= i < |xs| ==> xs[i] <= MaxOf(xs)
    ensures xs == [] ==> MaxOf(xs) == 0
    ensures xs != [] ==> exists i :: 0 <= i < |xs| && xs[i] == MaxOf(xs)
  {
    if xs != [] {
      var prefix := xs[..|xs| - 1];
      MaxOfFacts(prefix);
      assert forall i :: 0 <= i < |prefix| ==> prefix[i] == xs[i];
    }
  }

  lemma {:induction false} MethodComplexityListed(ms: seq<MethodMetrics>, k: nat)
    requires k < |ms|
    ensures MethodComplexities(ms)[k] == ms[k].complexity
  {
    if k < |ms| - 1 {
      MethodComplexityListed(ms[..|ms| - 1], k);
    }
  }

  /** Every method's complexity is listed, and every listed complexity is some method's. */
  lemma {:induction false} ComplexitiesListed(files: seq<FileMetrics>)
    ensures forall f, k :: f in files && 0 <= k < |f.methods| ==> f.methods[k].complexity in Complexities(files)
    ensures forall c :: c in Complexities(files) ==> exists f, k :: f in files && 0 <= k < |f.methods| && f.methods[k].complexity == c
  {
    if files != [] {
      var prefix := files[..|files| - 1];
      var last := files[|files| - 1];
      ComplexitiesListed(prefix);
      var mc := MethodComplexities(last.methods);
      forall k | 0 <= k < |last.methods| ensures mc[k] == last.methods[k].complexity {
        MethodComplexityListed(last.methods, k);
      }
      forall f, k | f in files && 0 <= k < |f.methods| ensures f.methods[k].complexity in Complexities(files) {
        if f != last {
          assert f in prefix;
        } else {
          assert mc[k] in mc;
        }
      }
      forall c | c in Complexities(files)
        ensures exists f, k :: f in files && 0 <= k < |f.methods| && f.methods[k].complexity == c
      {
        if c in Complexities(prefix) {
          var f, k :| f in prefix && 0 <= k < |f.methods| && f.methods[k].complexity == c;
          assert f in files;
        } else {
          var k :| 0 <= k < |mc| && mc[k] == c;
          assert last in files;
        }
      }
    }
  }

  lemma {:induction false} TotalLocBounds(files: seq<FileMetrics>)
    ensures forall f :: f in files ==> f.loc <= TotalLoc(files)
    ensures TotalLoc(files) == 0 <==> forall f :: f in files ==> f.loc == 0
  {
    if files != [] {
      var prefix := files[..|files| - 1];
      TotalLocBounds(prefix);
      assert forall f :: f in files ==> f in prefix || f == files[|files| - 1];
      assert forall f :: f in prefix ==> f in files;
    }
  }

  lemma {:induction false} ComplexitiesEmpty(files: seq<FileMetrics>)
    ensures Complexities(files) == [] <==> forall f :: f in files ==> f.methods == []
  {
    if files != [] {
      var prefix := files[..|files| - 1];
      ComplexitiesEmpty(prefix);
      assert forall f :: f in files ==> f in prefix || f == files[|files| - 1];
      assert forall f :: f in prefix ==> f in files;
    }
  }

  /** max_complexity bounds every method's complexity, is the complexity of some method when there is one,
      and is 0 when there is none. */
  lemma MaxComplexityFacts(files: seq<FileMetrics>)
    ensures forall f, k :: f in files && 0 <= k < |f.methods| ==> f.methods[k].complexity <= MaxOf(Complexities(files))
    ensures (exists f :: f in files && f.methods != []) ==>
              exists f, k :: f in files && 0 <= k < |f.methods| && f.methods[k].complexity == MaxOf(Complexities(files))
    ensures (forall f :: f in files ==> f.methods == []) ==> MaxOf(Complexities(files)) == 0
  {
    var cs := Complexities(files);
    ComplexitiesListed(files);
    ComplexitiesEmpty(files);
    MaxOfFacts(cs);
    forall f, k | f in files && 0 <= k < |f.methods| ensures f.methods[k].complexity <= MaxOf(cs) {
      assert f.methods[k].complexity in cs;
    }
    if cs != [] {
      var i :| 0 <= i < |cs| && cs[i] == MaxOf(cs);
      assert cs[i] in cs;
    }
  }

  /** What summarise_metrics reports: the file count, a total that bounds every file's lines and is 0 only when
      all files are empty, the largest method complexity (0 when there is no method), and the number of
      duplicate fragments. */
  lemma SummaryFacts(m: RepositoryMetrics)
    ensures var s := SummaryOf(m);
            && s.files == |m.files|
            && s.duplicateFragments == |m.duplicateBlocks|
            && (forall f :: f in m.files ==> f.loc <= s.totalLoc)
            && (s.totalLoc == 0 <==> forall f :: f in m.files ==> f.loc == 0)
            && (forall f, k :: f in m.files && 0 <= k < |f.methods| ==> f.methods[k].complexity <= s.maxComplexity)
            && ((exists f :: f in m.files && f.methods != []) ==>
                  exists f, k :: f in m.files && 0 <= k < |f.methods| && f.methods[k].complexity == s.maxComplexity)
            && ((forall f :: f in m.files ==> f.methods == []) ==> s.maxComplexity == 0)
  {
    TotalLocBounds(m.files);
    MaxComplexityFacts(m.files);
  }
}
