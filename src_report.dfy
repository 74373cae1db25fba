// The lightweight C# source analyser behind the `src` report: line
// classification, method-body extraction, parameter counting, duplicate
// detection and severity classification.  Regular-expression matches are
// inputs (positions and counts supplied by the caller).
module SrcReport {
  import opened Common

  // ---------------------------------------------------------------------
  // compute_line_metrics
  // ---------------------------------------------------------------------

  datatype LineKind = Blank | Comment | Code

  /** One step of the line classifier: the kind of the line and the new "inside a block comment" flag. */
  function ClassifyLine(raw: string, inBlock: bool): (r: (LineKind, bool))
  {
    var line := PyStrip(raw);
    if line == [] then (Blank, inBlock)
    else if inBlock then (Comment, !Contains(line, "*/"))
    else if StartsWith(line, "/*") then (Comment, !Contains(line, "*/"))
    else if StartsWith(line, "//") then (Comment, false)
    else (Code, false)
  }

  /** The classifier run over a list of lines, starting outside any block comment. */
  function Classify(lines: seq<string>): (r: (seq<LineKind>, bool))
    ensures |r.0| == |lines|
  {
    if lines == [] then ([], false)
    else
      var prev := Classify(lines[..|lines| - 1]);
      var step := ClassifyLine(lines[|lines| - 1], prev.1);
      (prev.0 + [step.0], step.1)
  }

  function CountKind(kinds: seq<LineKind>, k: LineKind): (n: nat)
    ensures n <= |kinds|
  {
    if kinds == [] then 0 else CountKind(kinds[..|kinds| - 1], k) + (if kinds[|kinds| - 1] == k then 1 else 0)
  }

  /** The number of lines that are empty after strip(), whatever the comment state. */
  function BlankLines(lines: seq<string>): (n: nat)
  {
    if lines == [] then 0 else BlankLines(lines[..|lines| - 1]) + (if PyStrip(lines[|lines| - 1]) == [] then 1 else 0)
  }

  lemma {:induction false} KindsPartition(kinds: seq<LineKind>)
    ensures CountKind(kinds, Blank) + CountKind(kinds, Comment) + CountKind(kinds, Code) == |kinds|
  {
    if kinds != [] {
      KindsPartition(kinds[..|kinds| - 1]);
    }
  }

  /** A blank line is counted blank even inside an open block comment, and only blank lines are. */
  lemma {:induction false} BlankCountIgnoresBlocks(lines: seq<string>)
    ensures CountKind(Classify(lines).0, Blank) == BlankLines(lines)
  {
    if lines != [] {
      var init := lines[..|lines| - 1];
      BlankCountIgnoresBlocks(init);
      var prev := Classify(init);
      assert (prev.0 + [ClassifyLine(lines[|lines| - 1], prev.1).0])[..|prev.0|] == prev.0;
    }
  }

  /** In a block comment a non-blank line is a comment, and the block closes exactly on a line containing the terminator. */
  lemma InsideBlockIsComment(raw: string)
    requires PyStrip(raw) != []
    ensures ClassifyLine(raw, true) == (Comment, !Contains(PyStrip(raw), "*/"))
  {
  }

  /** Outside a block, a line starting with the opener and lacking the terminator opens a block. */
  lemma OpenerOpensBlock(raw: string)
    requires StartsWith(PyStrip(raw), "/*") && !Contains(PyStrip(raw), "*/")
    ensures ClassifyLine(raw, false) == (Comment, true)
  {
  }

  lemma ClassifySnoc(lines: seq<string>, i: nat)
    requires i < |lines|
    ensures var prev := Classify(lines[..i]);
      var step := ClassifyLine(lines[i], prev.1);
      Classify(lines[..i + 1]) == (prev.0 + [step.0], step.1)
  {
    assert lines[..i + 1][..i] == lines[..i];
  }

  lemma CountKindSnoc(kinds: seq<LineKind>, k: LineKind, c: LineKind)
    ensures CountKind(kinds + [k], c) == CountKind(kinds, c) + (if k == c then 1 else 0)
  {
    assert (kinds + [k])[..|kinds|] == kinds;
  }

  /** The branches of the loop body for one raw line. */
  method ClassifyStripped(raw: string, inBlock0: bool) returns (kind: LineKind, inBlock: bool)
    ensures (kind, inBlock) == ClassifyLine(raw, inBlock0)
  {
    inBlock := inBlock0;
    kind := Code;
    var line := PyStrip(raw);
    if line == [] {
      kind := Blank;
    } else if inBlock {
      kind := Comment;
      if Contains(line, "*/") {
        inBlock := false;
      }
    } else if StartsWith(line, "/*") {
      kind := Comment;
      if !Contains(line, "*/") {
        inBlock := true;
      }
    } else if StartsWith(line, "//") || StartsWith(line, "///") {
      kind := Comment;
    }
  }

  method ComputeLineMetrics(text: string) returns (total: int, code: int, comment: int, blank: int)
    ensures total == |SplitLines(text)|
    ensures blank == BlankLines(SplitLines(text))
    ensures comment == CountKind(Classify(SplitLines(text)).0, Comment)
    ensures code == CountKind(Classify(SplitLines(text)).0, Code)
    ensures total >= 0 && code >= 0 && comment >= 0 && blank >= 0
    ensures code + comment + blank == total
  {
    var lines := SplitLines(text);
    total, blank, comment := CountLines(lines);
    code := total - blank - comment;
    KindsPartition(Classify(lines).0);
    BlankCountIgnoresBlocks(lines);
  }

  /** The loop of compute_line_metrics over the split lines. */
  method CountLines(lines: seq<string>) returns (total: nat, blank: nat, comment: nat)
    ensures total == |lines|
    ensures blank == CountKind(Classify(lines).0, Blank)
    ensures comment == CountKind(Classify(lines).0, Comment)
  {
    total, blank, comment := 0, 0, 0;
    var inBlock := false;
    var i := 0;
    while i < |lines|
      invariant 0 <= i <= |lines|
      invariant total == i
      invariant Classify(lines[..i]).1 == inBlock
      invariant blank == CountKind(Classify(lines[..i]).0, Blank)
      invariant comment == CountKind(Classify(lines[..i]).0, Comment)
    {
      total := total + 1;
      inBlock, blank, comment := TallyLine(lines, i, inBlock, blank, comment);
      i := i + 1;
    }
    assert lines[..i] == lines;
  }

  /** The loop body: classify line i and count it. */
  method TallyLine(lines: seq<string>, i: nat, inBlock0: bool, blank0: nat, comment0: nat) returns (inBlock: bool, blank: nat, comment: nat)
    requires i < |lines| && Classify(lines[..i]).1 == inBlock0
    requires blank0 == CountKind(Classify(lines[..i]).0, Blank) && comment0 == CountKind(Classify(lines[..i]).0, Comment)
    ensures Classify(lines[..i + 1]).1 == inBlock
    ensures blank == CountKind(Classify(lines[..i + 1]).0, Blank) && comment == CountKind(Classify(lines[..i + 1]).0, Comment)
  {
    var kind;
    kind, inBlock := ClassifyStripped(lines[i], inBlock0);
    TallyStep(lines, i, kind, inBlock);
    blank, comment := blank0, comment0;
    if kind == Blank {
      blank := blank + 1;
    } else if kind == Comment {
      comment := comment + 1;
    }
  }

  /** One more line: the classifier state and the two counts advance by that line's kind. */
  lemma TallyStep(lines: seq<string>, i: nat, kind: LineKind, inBlock: bool)
    requires i < |lines| && (kind, inBlock) == ClassifyLine(lines[i], Classify(lines[..i]).1)
    ensures Classify(lines[..i + 1]).1 == inBlock
    ensures CountKind(Classify(lines[..i + 1]).0, Blank) == CountKind(Classify(lines[..i]).0, Blank) + (if kind == Blank then 1 else 0)
    ensures CountKind(Classify(lines[..i + 1]).0, Comment) == CountKind(Classify(lines[..i]).0, Comment) + (if kind == Comment then 1 else 0)
  {
    ClassifySnoc(lines, i);
    CountKindSnoc(Classify(lines[..i]).0, kind, Blank);
    CountKindSnoc(Classify(lines[..i]).0, kind, Comment);
  }

  // ---------------------------------------------------------------------
  // the brace scan
  // ---------------------------------------------------------------------

  /** The state of the brace scan at position k: strictly inside the block opened at lo, at depth `depth`. */
  predicate ScanState(text: string, lo: nat, k: nat, depth: int)
  {
    lo < k <= |text| && depth >= 1 && depth == Depth(text[lo..k])
    && forall m :: lo < m <= k ==> Depth(text[lo..m]) >= 1
  }

  lemma ScanInit(text: string, lo: nat)
    requires lo < |text| && text[lo] == '{'
    ensures ScanState(text, lo, lo + 1, 1)
  {
    assert text[lo..lo + 1] == [text[lo]];
    assert [text[lo]][1..] == [];
  }

  lemma ScanStep(text: string, lo: nat, k: nat, depth: int)
    requires ScanState(text, lo, k, depth) && k < |text|
    ensures Depth(text[lo..k + 1]) == depth + BraceStep(text[k])
    ensures !(text[k] == '}' && depth == 1) ==> ScanState(text, lo, k + 1, depth + BraceStep(text[k]))
  {
    assert text[lo..k + 1] == text[lo..k] + [text[k]];
    assert [text[k]][1..] == [];
    DepthConcat(text[lo..k], [text[k]]);
  }

  /** The scan for the brace that brings the depth back to zero, continued from position k. */
  function CloseFrom(text: string, lo: nat, k: nat, depth: int): (r: Option<nat>)
    requires ScanState(text, lo, k, depth)
    ensures r.Some? ==> k <= r.value < |text| && text[r.value] == '}'
    ensures r.Some? ==> Depth(text[lo..r.value + 1]) == 0
    ensures r.Some? ==> forall m :: lo < m <= r.value ==> Depth(text[lo..m]) >= 1
    ensures r.None? ==> forall m :: lo < m <= |text| ==> Depth(text[lo..m]) >= 1
    decreases |text| - k
  {
    if k == |text| then None
    else
      ScanStep(text, lo, k, depth);
      if text[k] == '}' && depth == 1 then Some(k)
      else CloseFrom(text, lo, k + 1, depth + BraceStep(text[k]))
  }

  datatype Body = Body(text: string, isExpression: bool)

  /** The end of the line that contains position i: the next newline or the end of the text. */
  function LineEnd(text: string, i: nat): (e: nat)
    ensures i <= e <= |text| || (i > |text| && e == |text|)
  {
    var nl := FindIn(text, "\n", i, |text|);
    if nl == -1 then |text| else nl
  }

  /** What extract_method_body(text, start) returns. */
  function ExtractBody(text: string, start: nat): (r: Body)
  {
    var brace := FindIn(text, "{", start, |text|);
    var arrow := FindIn(text, "=>", start, LineEnd(text, start));
    if arrow != -1 && (brace == -1 || arrow < brace) then
      Body(text[arrow..LineEnd(text, arrow)], true)
    else if brace == -1 then Body("", false)
    else
      assert text[brace..brace + 1] == "{";
      Body(BlockText(text, brace), false)
  }

  /** The text after the brace at `brace`, up to (excluding) its matching brace, or to the end of the text. */
  function BlockText(text: string, brace: nat): string
    requires brace < |text| && text[brace] == '{'
  {
    ScanInit(text, brace);
    match CloseFrom(text, brace, brace + 1, 1)
    case Some(k) => text[brace + 1..k]
    case None => text[brace + 1..]
  }

  /** The block opened at `brace` has a matching closing brace. */
  predicate BlockCloses(text: string, brace: int)
  {
    0 <= brace < |text| && text[brace] == '{'
    && (ScanInit(text, brace); CloseFrom(text, brace, brace + 1, 1).Some?)
  }

  lemma DepthOfUnit(c: char)
    ensures Depth([c]) == BraceStep(c)
  {
    assert [c][1..] == [];
  }

  /** A closed block's text is brace-balanced: its depth ends at zero and never drops below zero. */
  lemma BlockTextBalanced(text: string, brace: nat)
    requires BlockCloses(text, brace)
    ensures var body := BlockText(text, brace);
      Depth(body) == 0 && forall m :: 0 <= m <= |body| ==> Depth(body[..m]) >= 0
  {
    ScanInit(text, brace);
    var k := CloseFrom(text, brace, brace + 1, 1).value;
    var body := text[brace + 1..k];
    var open := [text[brace]];
    DepthOfUnit(text[brace]);
    DepthOfUnit(text[k]);
    assert text[brace..k + 1] == open + body + [text[k]];
    DepthConcat(open + body, [text[k]]);
    DepthConcat(open, body);
    forall m | 0 <= m <= |body| ensures Depth(body[..m]) >= 0 {
      assert text[brace..brace + 1 + m] == open + body[..m];
      DepthConcat(open, body[..m]);
    }
  }

  /** When a brace comes first and closes, extract_method_body returns a brace-balanced body. */
  lemma BlockBodyBalanced(text: string, start: nat)
    requires var brace := FindIn(text, "{", start, |text|);
      brace != -1 && (FindIn(text, "=>", start, LineEnd(text, start)) == -1 || brace < FindIn(text, "=>", start, LineEnd(text, start)))
    requires BlockCloses(text, FindIn(text, "{", start, |text|))
    ensures var body := ExtractBody(text, start).text;
      Depth(body) == 0 && forall m :: 0 <= m <= |body| ==> Depth(body[..m]) >= 0
  {
    BlockTextBalanced(text, FindIn(text, "{", start, |text|));
  }

  /** With an arrow on the current line before any brace, the body runs from the arrow to the end of that line. */
  lemma ArrowBody(text: string, start: nat)
    requires FindIn(text, "=>", start, LineEnd(text, start)) != -1
    requires FindIn(text, "{", start, |text|) == -1 || FindIn(text, "=>", start, LineEnd(text, start)) < FindIn(text, "{", start, |text|)
    ensures var a := FindIn(text, "=>", start, LineEnd(text, start));
      ExtractBody(text, start).isExpression && StartsWith(ExtractBody(text, start).text, "=>")
      && a + |ExtractBody(text, start).text| <= |text|
      && !Contains(ExtractBody(text, start).text, "\n")
  {
    var a := FindIn(text, "=>", start, LineEnd(text, start));
    var e := LineEnd(text, a);
    var body := text[a..e];
    assert body[..2] == text[a..a + 2];
    forall j | 0 <= j <= |body| - 1 ensures !OccursAt(body, "\n", j) {
      assert body[j..j + 1] == [body[j]] && text[a + j..a + j + 1] == [text[a + j]];
      assert !OccursAt(text, "\n", a + j);
    }
  }

  method ExtractMethodBody(text: string, start: nat) returns (body: string, isExpression: bool)
    ensures Body(body, isExpression) == ExtractBody(text, start)
    ensures isExpression ==> StartsWith(body, "=>")
  {
    var braceIndex := FindIn(text, "{", start, |text|);
    var arrowIndex := FindIn(text, "=>", start, LineEnd(text, start));
    if arrowIndex != -1 && (braceIndex == -1 || arrowIndex < braceIndex) {
      var lineEnd := FindIn(text, "\n", arrowIndex, |text|);
      if lineEnd == -1 {
        lineEnd := |text|;
      }
      assert text[arrowIndex..arrowIndex + 2] == "=>";
      return text[arrowIndex..lineEnd], true;
    }
    if braceIndex == -1 {
      return "", false;
    }
    assert text[braceIndex..braceIndex + 1] == "{";
    body := ScanBlock(text, braceIndex);
    isExpression := false;
  }

  /** The body extract_method_body cuts out: up to the matching closing brace, or to the end of the text. */
  method ScanBlock(text: string, braceIndex: nat) returns (body: string)
    requires braceIndex < |text| && text[braceIndex] == '{'
    ensures body == BlockText(text, braceIndex)
  {
    var close := FindClose(text, braceIndex);
    if close.Some? {
      body := text[braceIndex + 1..close.value];
    } else {
      body := text[braceIndex + 1..];
    }
  }

  /** The depth-counting loop of extract_method_body, from the opening brace: where depth first returns to 0. */
  method FindClose(text: string, braceIndex: nat) returns (close: Option<nat>)
    requires braceIndex < |text| && text[braceIndex] == '{'
    ensures ScanState(text, braceIndex, braceIndex + 1, 1)
    ensures close == CloseFrom(text, braceIndex, braceIndex + 1, 1)
  {
    ScanInit(text, braceIndex);
    // the first turn reads the opening brace itself
    var depth := 1;
    var idx := braceIndex + 1;
    while idx < |text|
      invariant ScanState(text, braceIndex, idx, depth)
      invariant CloseFrom(text, braceIndex, idx, depth) == CloseFrom(text, braceIndex, braceIndex + 1, 1)
      decreases |text| - idx
    {
      var closes;
      closes, depth := BraceTurn(text, braceIndex, idx, depth);
      if closes {
        return Some(idx);
      }
      idx := idx + 1;
    }
    return None;
  }

  /** One character of that loop: a brace moves the depth, and the one that brings it to 0 closes the block. */
  method BraceTurn(text: string, lo: nat, idx: nat, depth0: int) returns (closes: bool, depth: int)
    requires ScanState(text, lo, idx, depth0) && idx < |text|
    ensures closes ==> CloseFrom(text, lo, idx, depth0) == Some(idx)
    ensures !closes ==> ScanState(text, lo, idx + 1, depth) && CloseFrom(text, lo, idx + 1, depth) == CloseFrom(text, lo, idx, depth0)
  {
    var ch := text[idx];
    ScanStep(text, lo, idx, depth0);
    depth := depth0;
    closes := false;
    if ch == '{' {
      depth := depth + 1;
    } else if ch == '}' {
      depth := depth - 1;
      closes := depth == 0;
    }
  }

  // ---------------------------------------------------------------------
  // estimate_complexity, has_documentation, parameter counting
  // ---------------------------------------------------------------------

  /** 1 for an empty body, otherwise one more than the number of control-keyword matches. */
  function EstimateComplexity(body: string, keywordMatches: nat): (c: nat)
    ensures c >= 1
    ensures body == [] ==> c == 1
    ensures body != [] ==> c - 1 == keywordMatches
  {
    if body == [] then 1 else 1 + keywordMatches
  }

  /** The nearest non-blank line at or above index idx starts with the doc-comment marker. */
  predicate DocumentedAbove(lines: seq<string>, idx: int)
    requires idx < |lines|
  {
    exists j :: 0 <= j <= idx && StartsWith(PyStrip(lines[j]), "///")
      && forall k :: j < k <= idx ==> PyStrip(lines[k]) == []
  }

  method HasDocumentation(lines: seq<string>, startLine: int) returns (documented: bool)
    requires startLine - 2 < |lines|
    ensures documented <==> DocumentedAbove(lines, startLine - 2)
  {
    var idx := startLine - 2;
    while idx >= 0
      invariant idx <= startLine - 2
      invariant idx < -1 ==> idx == startLine - 2
      invariant forall k :: idx < k <= startLine - 2 ==> PyStrip(lines[k]) == []
      decreases idx + 1
    {
      var line := PyStrip(lines[idx]);
      if line == [] {
        idx := idx - 1;
        continue;
      }
      documented := StartsWith(line, "///");
      return;
    }
    return false;
  }

  /** re.sub(r"<[^>]+>", "", s): every '<' followed by at least one non-'>' and then a '>' is deleted with that run. */
  function RemoveAngleGroups(s: string): (r: string)
    ensures |r| <= |s|
    decreases |s|
  {
    if s == [] then []
    else if s[0] == '<' && CloserAfter(s, 1) >= 2 then RemoveAngleGroups(s[CloserAfter(s, 1) + 1..])
    else [s[0]] + RemoveAngleGroups(s[1..])
  }

  /** The index of the first '>' at or after i, or -1. */
  function CloserAfter(s: string, i: nat): (r: int)
    ensures r == -1 || (i <= r < |s| && s[r] == '>')
    ensures forall j :: i <= j < |s| && (r == -1 || j < r) ==> s[j] != '>'
    decreases |s| - i
  {
    if i >= |s| then -1 else if s[i] == '>' then i else CloserAfter(s, i + 1)
  }

  /** The parameter count of analyze_methods: 0 for a blank list, else the non-blank comma pieces once generic groups are deleted. */
  function ParameterCount(params: string): (n: nat)
    ensures PyStrip(params) == [] ==> n == 0
    ensures n <= |PySplitChar(RemoveAngleGroups(PyStrip(params)), ',')|
  {
    var p := PyStrip(params);
    if p == [] then 0 else CountNonBlank(PySplitChar(RemoveAngleGroups(p), ','))
  }

  lemma {:induction false} NoAngleUnchanged(s: string)
    requires forall i :: 0 <= i < |s| ==> s[i] != '<'
    ensures RemoveAngleGroups(s) == s
  {
    if s != [] {
      NoAngleUnchanged(s[1..]);
    }
  }

  /** Parameters written without generics or extra commas are counted one each. */
  lemma ParameterCountOfPlainList(decls: seq<string>)
    requires |decls| >= 1
    requires forall k :: 0 <= k < |decls| ==> forall j :: 0 <= j < |decls[k]| ==> decls[k][j] != ',' && decls[k][j] != '<'
    requires forall k :: 0 <= k < |decls| ==> PyStrip(decls[k]) != []
    requires PyStrip(Join(decls, ",")) == Join(decls, ",")
    ensures ParameterCount(Join(decls, ",")) == |decls|
  {
    var joined := Join(decls, ",");
    JoinHasNoAngle(decls);
    NoAngleUnchanged(joined);
    SplitJoin(decls, ',');
    assert |decls[0]| > 0;
    AllNonBlankCounted(decls);
  }

  lemma {:induction false} JoinHasNoAngle(xs: seq<string>)
    requires forall k :: 0 <= k < |xs| ==> forall j :: 0 <= j < |xs[k]| ==> xs[k][j] != ',' && xs[k][j] != '<'
    ensures forall i :: 0 <= i < |Join(xs, ",")| ==> Join(xs, ",")[i] != '<'
  {
    if |xs| > 1 {
      JoinHasNoAngle(xs[1..]);
    }
  }

  // ---------------------------------------------------------------------
  // analyze_methods
  // ---------------------------------------------------------------------

  /** One METHOD_PATTERN match: the captured name and parameter text, and the span of the match. */
  datatype MethodMatch = MethodMatch(name: string, params: string, start: nat, end: nat)

  /** The pattern's match lies in the text and ends with the block opener "{" or the expression opener "=>". */
  predicate MatchInText(text: string, m: MethodMatch)
  {
    m.start <= m.end <= |text|
    && ((m.end >= 1 && text[m.end - 1] == '{') || (m.end >= 2 && text[m.end - 2..m.end] == "=>"))
  }

  datatype MethodMetrics = MethodMetrics(name: string, parameters: nat, startLine: nat, loc: nat,
                                         complexity: nat, hasDocs: bool, isExpression: bool, bodyOffset: nat)

  /** The line above a match start always exists, so has_documentation never reads past the lines of the text. */
  lemma LineAboveExists(text: string, pos: nat)
    requires pos <= |text|
    ensures LineNumber(text, pos) - 2 < |SplitLines(text)|
  {
    assert text == text[..pos] + text[pos..];
    CountCharConcat(text[..pos], text[pos..], '\n');
    NewlinesBoundLines(text, []);
  }

  /** The start of the method's own body opener: the "{" or "=>" the match ends with. */
  function OpenerIndex(text: string, m: MethodMatch): (i: nat)
    requires MatchInText(text, m)
    ensures i < m.end
    ensures text[i] == '{' || (i + 2 <= |text| && text[i..i + 2] == "=>")
  {
    if m.end >= 1 && text[m.end - 1] == '{' then m.end - 1 else m.end - 2
  }

  /** The record analyze_methods appends for match m when the body is read from `offset`. */
  function MetricsAt(text: string, m: MethodMatch, offset: nat, keywordMatches: string -> nat): MethodMetrics
    requires m.start <= |text|
  {
    var body := ExtractBody(text, offset);
    LineAboveExists(text, m.start);
    MethodMetrics(m.name, ParameterCount(m.params), LineNumber(text, m.start), CountNonBlank(SplitLines(body.text)),
                  EstimateComplexity(body.text, keywordMatches(body.text)),
                  DocumentedAbove(SplitLines(text), LineNumber(text, m.start) - 2), body.isExpression, offset)
  }

  /** analyze_methods as written: the body is read from match.end(), just past the method's own opener. */
  function AnalyzeMethodAsWritten(text: string, m: MethodMatch, keywordMatches: string -> nat): (r: MethodMetrics)
    requires MatchInText(text, m)
    ensures r.bodyOffset == m.end
  {
    MetricsAt(text, m, m.end, keywordMatches)
  }

  /** The corrected record: the body is read from the method's own "{" or "=>". */
  function AnalyzeMethod(text: string, m: MethodMatch, keywordMatches: string -> nat): (r: MethodMetrics)
    requires MatchInText(text, m)
    ensures r.bodyOffset < m.end
    ensures r.name == m.name && r.complexity >= 1 && r.startLine >= 1
  {
    MetricsAt(text, m, OpenerIndex(text, m), keywordMatches)
  }

  /** Read from its own opener, a block-bodied method gets exactly the text of its block. */
  lemma OwnBlockBody(text: string, m: MethodMatch)
    requires MatchInText(text, m) && text[m.end - 1] == '{'
    ensures ExtractBody(text, OpenerIndex(text, m)) == Body(BlockText(text, m.end - 1), false)
  {
    var b := m.end - 1;
    assert text[b..b + 1] == "{";
    assert OccursAt(text, "{", b);
    var arrow := FindIn(text, "=>", b, LineEnd(text, b));
    assert arrow != b;
  }

  /** Read from its own opener, an expression-bodied method gets "=>" up to the end of its line. */
  lemma OwnArrowBody(text: string, m: MethodMatch)
    requires MatchInText(text, m) && text[m.end - 1] != '{'
    ensures var a := m.end - 2;
      ExtractBody(text, OpenerIndex(text, m)) == Body(text[a..LineEnd(text, a)], true)
  {
    var a := m.end - 2;
    assert text[a..a + 2] == "=>";
    assert text[a] == '=' && text[a + 1] == '>' by {
      assert text[a..a + 2][0] == text[a] && text[a..a + 2][1] == text[a + 1];
    }
    var nl := FindIn(text, "\n", a, |text|);
    assert nl == -1 || nl >= a + 2 by {
      if nl != -1 {
        assert text[nl..nl + 1][0] == text[nl];
      }
    }
    assert OccursAt(text, "=>", a);
    var brace := FindIn(text, "{", a, |text|);
    assert brace == -1 || brace > a by {
      if brace == a {
        assert text[a..a + 1][0] == text[a];
      }
    }
  }

  /** The as-written offset on "public void F(){x}": the body "x" is lost and the method counts as empty. */
  lemma AsWrittenLosesBody()
    ensures var text := "public void F(){x}";
      var m := MethodMatch("F", "", 0, 16);
      MatchInText(text, m)
      && ExtractBody(text, m.end) == Body("", false)
      && ExtractBody(text, OpenerIndex(text, m)) == Body("x", false)
  {
    var text := "public void F(){x}";
    var m := MethodMatch("F", "", 0, 16);
    assert text[15] == '{' && text[16] == 'x' && text[17] == '}' && |text| == 18;
    assert text[15..16] == "{";
    var nl := FindIn(text, "\n", 16, 18);
    assert nl == -1 by {
      if nl != -1 {
        assert text[nl..nl + 1][0] == text[nl];
      }
    }
    var late := FindIn(text, "{", 16, 18);
    assert late == -1 by {
      if late != -1 {
        assert text[late..late + 1][0] == text[late];
      }
    }
    var lateArrow := FindIn(text, "=>", 16, 18);
    assert lateArrow == -1;
    OwnBlockBody(text, m);
    ScanInit(text, 15);
    ScanStep(text, 15, 16, 1);
    assert CloseFrom(text, 15, 17, 1) == Some(17);
    assert text[16..17] == "x";
  }

  method AnalyzeMethods(text: string, matches: seq<MethodMatch>, keywordMatches: string -> nat) returns (metrics: seq<MethodMetrics>)
    requires forall i :: 0 <= i < |matches| ==> MatchInText(text, matches[i])
    ensures metrics == MapSeq(matches, m requires MatchInText(text, m) => AnalyzeMethod(text, m, keywordMatches))
  {
    var lines := SplitLines(text);
    metrics := [];
    for i := 0 to |matches|
      invariant metrics == MapSeq(matches[..i], m requires MatchInText(text, m) => AnalyzeMethod(text, m, keywordMatches))
    {
      var record := AnalyzeMatch(text, lines, matches[i], keywordMatches);
      MapSeqSnoc(matches, m requires MatchInText(text, m) => AnalyzeMethod(text, m, keywordMatches), i);
      metrics := metrics + [record];
    }
    assert matches[..|matches|] == matches;
  }

  /** The body of analyze_methods' loop for one match. */
  method AnalyzeMatch(text: string, lines: seq<string>, m: MethodMatch, keywordMatches: string -> nat) returns (record: MethodMetrics)
    requires MatchInText(text, m) && lines == SplitLines(text)
    ensures record == AnalyzeMethod(text, m, keywordMatches)
  {
      var paramCount := ParameterCount(m.params);
      var startLine := CountChar(text[..m.start], '\n') + 1;
      var bodyOffset := OpenerIndex(text, m);
      var body, isExpression := ExtractMethodBody(text, bodyOffset);
      var loc := CountNonBlank(SplitLines(body));
      var complexity := EstimateComplexity(body, keywordMatches(body));
      LineAboveExists(text, m.start);
      var documented := HasDocumentation(lines, startLine);
      record := MethodMetrics(m.name, paramCount, startLine, loc, complexity, documented, isExpression, bodyOffset);
  }

  // ---------------------------------------------------------------------
  // detect_duplicates
  // ---------------------------------------------------------------------

  /** re.sub(r"\s+", " ", s): every maximal run of whitespace becomes one space. */
  function CollapseWhitespace(s: string): (r: string)
    ensures |r| <= |s|
    decreases |s|
  {
    if s == [] then []
    else if IsPyWhiteSpace(s[0]) then [' '] + CollapseWhitespace(DropWhitespace(s[1..]))
    else [s[0]] + CollapseWhitespace(s[1..])
  }

  function DropWhitespace(s: string): (r: string)
    ensures |r| <= |s|
    ensures r == [] || !IsPyWhiteSpace(r[0])
  {
    if s != [] && IsPyWhiteSpace(s[0]) then DropWhitespace(s[1..]) else s
  }

  /** The only white space is single spaces. */
  predicate SingleSpaced(r: string)
  {
    forall i :: 0 <= i < |r| && IsPyWhiteSpace(r[i]) ==> r[i] == ' ' && (i + 1 == |r| || !IsPyWhiteSpace(r[i + 1]))
  }

  /** Collapsing leaves no white space but single spaces. */
  lemma {:induction false} CollapsedSpacesAreSingle(s: string)
    ensures SingleSpaced(CollapseWhitespace(s))
    decreases |s|
  {
    if s == [] {
    } else if IsPyWhiteSpace(s[0]) {
      var d := DropWhitespace(s[1..]);
      CollapsedSpacesAreSingle(d);
      if d != [] {
        CollapseKeepsHead(d);
      }
      var r := CollapseWhitespace(s);
      var rest := CollapseWhitespace(d);
      assert r == [' '] + rest;
      assert |r| == 1 || !IsPyWhiteSpace(r[1]) by {
        if d != [] {
          assert r[1] == rest[0] == d[0];
        }
      }
      forall i | 0 <= i < |r| && IsPyWhiteSpace(r[i])
        ensures r[i] == ' ' && (i + 1 == |r| || !IsPyWhiteSpace(r[i + 1]))
      {
        if i > 0 {
          assert r[i] == rest[i - 1] && IsPyWhiteSpace(rest[i - 1]);
          if i + 1 < |r| {
            assert r[i + 1] == rest[i];
          }
        }
      }
    } else {
      CollapsedSpacesAreSingle(s[1..]);
      var r := CollapseWhitespace(s);
      var rest := CollapseWhitespace(s[1..]);
      assert r == [s[0]] + rest;
      forall i | 0 <= i < |r| && IsPyWhiteSpace(r[i])
        ensures r[i] == ' ' && (i + 1 == |r| || !IsPyWhiteSpace(r[i + 1]))
      {
        assert i > 0 && r[i] == rest[i - 1] && IsPyWhiteSpace(rest[i - 1]);
        if i + 1 < |r| {
          assert r[i + 1] == rest[i];
        }
      }
    }
  }

  lemma CollapseKeepsHead(s: string)
    requires s != [] && !IsPyWhiteSpace(s[0])
    ensures CollapseWhitespace(s) != [] && CollapseWhitespace(s)[0] == s[0]
  {
  }

  datatype Location = Location(path: string, startLine: nat)

  /** One analysed source file: its path, its text and its method records. */
  datatype SourceFile = SourceFile(path: string, text: string, methods: seq<MethodMetrics>)

  /** The lower-cased, whitespace-collapsed body read at `offset`, or None when it is shorter than 40 characters. */
  function Fingerprint(text: string, offset: nat): (r: Option<string>)
    ensures r.Some? ==> |r.value| >= 40
    ensures r.None? <==> |CollapseWhitespace(PyStrip(ExtractBody(text, offset).text))| < 40
  {
    var normalized := CollapseWhitespace(PyStrip(ExtractBody(text, offset).text));
    if |normalized| < 40 then None else Some(LowerAscii(normalized))
  }

  datatype Sighting = Sighting(fingerprint: string, location: Location)

  /** What a file's methods add to `seen`, given each method's fingerprint (None for a skipped body). */
  function Collect(path: string, ms: seq<MethodMetrics>, fps: seq<Option<string>>): (r: seq<Sighting>)
    requires |fps| == |ms|
  {
    if ms == [] then []
    else
      var n := |ms| - 1;
      Collect(path, ms[..n], fps[..n])
      + match fps[n]
        case None => []
        case Some(fp) => [Sighting(fp, Location(path, ms[n].startLine))]
  }

  function FileFingerprints(f: SourceFile): (r: seq<Option<string>>)
    ensures |r| == |f.methods|
    ensures forall k :: 0 <= k < |r| ==> r[k] == Fingerprint(f.text, f.methods[k].bodyOffset)
  {
    MapSeq(f.methods, (m: MethodMetrics) => Fingerprint(f.text, m.bodyOffset))
  }

  function FileSightings(f: SourceFile): seq<Sighting>
  {
    Collect(f.path, f.methods, FileFingerprints(f))
  }

  lemma CollectSnoc(path: string, ms: seq<MethodMetrics>, fps: seq<Option<string>>, j: nat)
    requires |fps| == |ms| && j < |ms|
    ensures fps[j].None? ==> Collect(path, ms[..j + 1], fps[..j + 1]) == Collect(path, ms[..j], fps[..j])
    ensures fps[j].Some? ==>
      Collect(path, ms[..j + 1], fps[..j + 1]) == Collect(path, ms[..j], fps[..j]) + [Sighting(fps[j].value, Location(path, ms[j].startLine))]
  {
    assert ms[..j + 1][..j] == ms[..j] && fps[..j + 1][..j] == fps[..j];
  }

  /** Everything appended to `seen`, file by file. */
  function Sightings(files: seq<SourceFile>): (r: seq<Sighting>)
  {
    if files == [] then []
    else Sightings(files[..|files| - 1]) + FileSightings(files[|files| - 1])
  }

  lemma {:induction false} CollectedAreLong(path: string, ms: seq<MethodMetrics>, fps: seq<Option<string>>)
    requires |fps| == |ms|
    requires forall k :: 0 <= k < |fps| ==> fps[k].Some? ==> |fps[k].value| >= 40
    ensures forall k :: 0 <= k < |Collect(path, ms, fps)| ==> |Collect(path, ms, fps)[k].fingerprint| >= 40
  {
    if ms != [] {
      var n := |ms| - 1;
      CollectedAreLong(path, ms[..n], fps[..n]);
    }
  }

  /** Only bodies of at least 40 characters after collapsing are fingerprinted. */
  lemma {:induction false} SightingsAreLong(files: seq<SourceFile>)
    ensures forall k :: 0 <= k < |Sightings(files)| ==> |Sightings(files)[k].fingerprint| >= 40
  {
    if files != [] {
      var f := files[|files| - 1];
      SightingsAreLong(files[..|files| - 1]);
      CollectedAreLong(f.path, f.methods, FileFingerprints(f));
    }
  }

  /** The `seen` dictionary after the sightings ss. */
  function Group(ss: seq<Sighting>): map<string, seq<Location>>
  {
    if ss == [] then map[]
    else
      var g := Group(ss[..|ss| - 1]);
      var s := ss[|ss| - 1];
      g[s.fingerprint := (if s.fingerprint in g then g[s.fingerprint] else []) + [s.location]]
  }

  /** The insertion order of `seen`: each fingerprint where it was first met. */
  function FirstSeen(ss: seq<Sighting>): seq<string>
  {
    if ss == [] then []
    else
      var order := FirstSeen(ss[..|ss| - 1]);
      var fp := ss[|ss| - 1].fingerprint;
      if fp in order then order else order + [fp]
  }

  lemma GroupSnoc(ss: seq<Sighting>, s: Sighting)
    ensures Group(ss + [s]) == Group(ss)[s.fingerprint := (if s.fingerprint in Group(ss) then Group(ss)[s.fingerprint] else []) + [s.location]]
    ensures FirstSeen(ss + [s]) == if s.fingerprint in FirstSeen(ss) then FirstSeen(ss) else FirstSeen(ss) + [s.fingerprint]
  {
    assert (ss + [s])[..|ss|] == ss;
  }

  /** The locations of the sightings of fp, in order: the independent description of Group. */
  function LocationsOf(ss: seq<Sighting>, fp: string): seq<Location>
  {
    if ss == [] then []
    else LocationsOf(ss[..|ss| - 1], fp) + (if ss[|ss| - 1].fingerprint == fp then [ss[|ss| - 1].location] else [])
  }

  /** `seen` holds exactly the fingerprints met, each with all its locations in order; the key order lists each once. */
  lemma {:induction false} GroupIsLocations(ss: seq<Sighting>)
    ensures forall fp :: fp in Group(ss) <==> LocationsOf(ss, fp) != []
    ensures forall fp :: fp in Group(ss) ==> Group(ss)[fp] == LocationsOf(ss, fp)
    ensures Distinct(FirstSeen(ss))
    ensures forall fp :: fp in FirstSeen(ss) <==> fp in Group(ss)
  {
    if ss != [] {
      GroupIsLocations(ss[..|ss| - 1]);
    }
  }

  /** The dictionary key of a duplicate group: the first 80 characters, with an ellipsis when cut. */
  function ReportKey(fp: string): (k: string)
    ensures |fp| <= 80 ==> k == fp
    ensures |fp| > 80 ==> |k| == 81
  {
    if |fp| > 80 then fp[..80] + "\U{2026}" else fp
  }

  /** The `duplicates` dictionary built from `seen` in its key order. */
  function Report(seen: map<string, seq<Location>>, order: seq<string>): (d: map<string, seq<Location>>)
    requires forall k :: 0 <= k < |order| ==> order[k] in seen
    ensures forall key :: key in d ==> |d[key]| >= 2
    ensures forall key :: key in d ==> exists k :: 0 <= k < |order| && ReportKey(order[k]) == key && d[key] == seen[order[k]]
  {
    if order == [] then map[]
    else
      var d := Report(seen, order[..|order| - 1]);
      var fp := order[|order| - 1];
      if |seen[fp]| > 1 then d[ReportKey(fp) := seen[fp]] else d
  }

  /** A fingerprint of at most 80 characters met at two or more locations is reported under itself with all of them. */
  lemma {:induction false} ShortFingerprintReported(seen: map<string, seq<Location>>, order: seq<string>, i: nat)
    requires forall k :: 0 <= k < |order| ==> order[k] in seen
    requires Distinct(order) && i < |order|
    requires |order[i]| <= 80 && |seen[order[i]]| >= 2
    ensures order[i] in Report(seen, order) && Report(seen, order)[order[i]] == seen[order[i]]
  {
    var init := order[..|order| - 1];
    var last := order[|order| - 1];
    if i < |init| {
      ShortFingerprintReported(seen, init, i);
      assert last != order[i];
      assert ReportKey(last) != order[i];
    }
  }

  /** detect_duplicates' result for the given files. */
  function Duplicates(files: seq<SourceFile>): map<string, seq<Location>>
  {
    var ss := Sightings(files);
    GroupIsLocations(ss);
    Report(Group(ss), FirstSeen(ss))
  }

  method DetectDuplicates(files: seq<SourceFile>) returns (duplicates: map<string, seq<Location>>)
    ensures duplicates == Duplicates(files)
  {
    var seen: map<string, seq<Location>> := map[];
    var order: seq<string> := [];
    for i := 0 to |files|
      invariant seen == Group(Sightings(files[..i])) && order == FirstSeen(Sightings(files[..i]))
    {
      seen, order := AddFileSightings(files[i], seen, order, Sightings(files[..i]));
      assert files[..i + 1][..i] == files[..i];
    }
    assert files[..|files|] == files;
    GroupIsLocations(Sightings(files));
    duplicates := ReportRepeated(seen, order);
  }

  /** The reporting loop of detect_duplicates: fingerprints in first-seen order, those met more than once. */
  method ReportRepeated(seen: map<string, seq<Location>>, order: seq<string>) returns (duplicates: map<string, seq<Location>>)
    requires forall k :: 0 <= k < |order| ==> order[k] in seen
    ensures duplicates == Report(seen, order)
  {
    duplicates := map[];
    for k := 0 to |order|
      invariant duplicates == Report(seen, order[..k])
    {
      assert order[..k + 1][..k] == order[..k];
      var fingerprint := order[k];
      if |seen[fingerprint]| > 1 {
        var key := if |fingerprint| > 80 then fingerprint[..80] + "\U{2026}" else fingerprint;
        duplicates := duplicates[key := seen[fingerprint]];
      }
    }
    assert order[..|order|] == order;
  }

  /** The body normalisation of detect_duplicates: None for a body that is skipped. */
  method BodyFingerprint(text: string, offset: nat) returns (found: Option<string>)
    ensures found == Fingerprint(text, offset)
  {
    var body, _ := ExtractMethodBody(text, offset);
    var normalized := CollapseWhitespace(PyStrip(body));
    if |normalized| < 40 {
      return None;
    }
    return Some(LowerAscii(normalized));
  }

  /** The inner loop of detect_duplicates over one file's methods. */
  method AddFileSightings(f: SourceFile, seen0: map<string, seq<Location>>, order0: seq<string>, ghost before: seq<Sighting>)
    returns (seen: map<string, seq<Location>>, order: seq<string>)
    requires seen0 == Group(before) && order0 == FirstSeen(before)
    ensures seen == Group(before + FileSightings(f)) && order == FirstSeen(before + FileSightings(f))
  {
    seen, order := seen0, order0;
    ghost var fps := FileFingerprints(f);
    ghost var added: seq<Sighting> := [];
    assert before + added == before;
    for j := 0 to |f.methods|
      invariant added == Collect(f.path, f.methods[..j], fps[..j])
      invariant seen == Group(before + added) && order == FirstSeen(before + added)
    {
      var m := f.methods[j];
      var found := BodyFingerprint(f.text, m.bodyOffset);
      CollectSnoc(f.path, f.methods, fps, j);
      assert fps[j] == found;
      if found.None? {
        continue;
      }
      var fingerprint := found.value;
      var here := Location(f.path, m.startLine);
      GroupSnoc(before + added, Sighting(fingerprint, here));
      AppendAssoc(before, added, [Sighting(fingerprint, here)]);
      added := added + [Sighting(fingerprint, here)];
      seen := seen[fingerprint := (if fingerprint in seen then seen[fingerprint] else []) + [here]];
      if fingerprint !in order {
        order := order + [fingerprint];
      }
    }
    assert f.methods[..|f.methods|] == f.methods && fps[..|fps|] == fps;
  }

  // ---------------------------------------------------------------------
  // classify_severity and build_issue_list
  // ---------------------------------------------------------------------

  datatype Severity = High | Medium | Low

  function Rank(s: Severity): nat
  {
    match s
    case High => 2
    case Medium => 1
    case Low => 0
  }

  function ClassifySeverity(m: MethodMetrics): (s: Severity)
    ensures s == High <==> m.loc >= 60 || m.complexity >= 15 || m.parameters >= 6
    ensures s == Low <==> m.loc < 35 && m.complexity < 8 && m.parameters < 4
  {
    if m.loc >= 60 || m.complexity >= 15 || m.parameters >= 6 then High
    else if m.loc >= 35 || m.complexity >= 8 || m.parameters >= 4 then Medium
    else Low
  }

  /** Growing any of the three metrics never lowers the severity. */
  lemma SeverityMonotone(a: MethodMetrics, b: MethodMetrics)
    requires a.loc <= b.loc && a.complexity <= b.complexity && a.parameters <= b.parameters
    ensures Rank(ClassifySeverity(a)) <= Rank(ClassifySeverity(b))
  {
  }

  /** File-level figures build_issue_list reads besides the method records. */
  datatype FileReport = FileReport(path: string, totalLines: nat, commentLines: nat, docLines: nat, methods: seq<MethodMetrics>)

  datatype Issue =
    | MethodIssue(path: string, name: string, loc: nat, parameters: nat, complexity: nat)
    | MissingDocs(path: string, docLines: nat, totalLines: nat)
    | SparseComments(path: string, totalLines: nat)

  /** doc_line_ratio < 0.02, where the ratio is 0 for an empty file. */
  predicate LowDocCoverage(f: FileReport)
  {
    f.totalLines == 0 || 50 * f.docLines < f.totalLines
  }

  /** comment_lines / max(total_lines, 1) < 0.05 on a file of more than 200 lines. */
  predicate LargeSparseFile(f: FileReport)
  {
    20 * f.commentLines < (if f.totalLines > 1 then f.totalLines else 1) && f.totalLines > 200
  }

  function MethodIssues(path: string, ms: seq<MethodMetrics>, s: Severity): (r: seq<Issue>)
    ensures forall k :: 0 <= k < |r| ==> r[k].MethodIssue? && r[k].path == path
  {
    if ms == [] then []
    else
      var m := ms[|ms| - 1];
      MethodIssues(path, ms[..|ms| - 1], s)
      + (if s != Low && ClassifySeverity(m) == s then [MethodIssue(path, m.name, m.loc, m.parameters, m.complexity)] else [])
  }

  /** What one file appends to the list of severity s. */
  function FileIssues(f: FileReport, s: Severity): seq<Issue>
  {
    MethodIssues(f.path, f.methods, s)
    + (if s == Medium && LowDocCoverage(f) then [MissingDocs(f.path, f.docLines, f.totalLines)] else [])
    + (if s == Medium && LargeSparseFile(f) then [SparseComments(f.path, f.totalLines)] else [])
  }

  function IssuesOf(files: seq<FileReport>, s: Severity): seq<Issue>
  {
    if files == [] then [] else IssuesOf(files[..|files| - 1], s) + FileIssues(files[|files| - 1], s)
  }

  /** The entry is the descriptor of a method of one of the files, of severity s. */
  predicate DescribesMethodOf(files: seq<FileReport>, s: Severity, issue: Issue)
  {
    exists f, m :: f in files && m in f.methods && issue == MethodIssue(f.path, m.name, m.loc, m.parameters, m.complexity)
      && ClassifySeverity(m) == s
  }

  /** The Low list stays empty, every method entry sits in the list of its own severity, and file notes are Medium. */
  lemma {:induction false} IssueListsAgreeWithSeverity(files: seq<FileReport>, s: Severity)
    ensures IssuesOf(files, Low) == []
    ensures forall issue :: issue in IssuesOf(files, s) && issue.MethodIssue? ==> DescribesMethodOf(files, s, issue)
    ensures forall issue :: issue in IssuesOf(files, s) && !issue.MethodIssue? ==> s == Medium
  {
    if files != [] {
      var init := files[..|files| - 1];
      var f := files[|files| - 1];
      IssueListsAgreeWithSeverity(init, s);
      NoLowMethodIssues(f.path, f.methods);
      MethodIssuesAgree(f.path, f.methods, s);
      var prefix := IssuesOf(init, s);
      var own := MethodIssues(f.path, f.methods, s);
      assert IssuesOf(files, s) == prefix + FileIssues(f, s);
      forall issue | issue in prefix + FileIssues(f, s) && issue.MethodIssue?
        ensures DescribesMethodOf(files, s, issue)
      {
        if issue in prefix {
          var g, m :| g in init && m in g.methods && issue == MethodIssue(g.path, m.name, m.loc, m.parameters, m.complexity)
            && ClassifySeverity(m) == s;
          assert g in files;
        } else {
          assert issue in own;
          var m :| m in f.methods && issue == MethodIssue(f.path, m.name, m.loc, m.parameters, m.complexity) && ClassifySeverity(m) == s;
          assert f in files;
        }
      }
    }
  }

  lemma {:induction false} NoLowMethodIssues(path: string, ms: seq<MethodMetrics>)
    ensures MethodIssues(path, ms, Low) == []
  {
    if ms != [] {
      NoLowMethodIssues(path, ms[..|ms| - 1]);
    }
  }

  lemma {:induction false} MethodIssuesAgree(path: string, ms: seq<MethodMetrics>, s: Severity)
    ensures forall issue :: issue in MethodIssues(path, ms, s) ==>
      exists m :: m in ms && issue == MethodIssue(path, m.name, m.loc, m.parameters, m.complexity) && ClassifySeverity(m) == s
  {
    if ms != [] {
      var init := ms[..|ms| - 1];
      MethodIssuesAgree(path, init, s);
      forall m | m in init ensures m in ms {
      }
    }
  }

  lemma IssuesOfSnoc(files: seq<FileReport>, i: nat, s: Severity)
    requires i < |files|
    ensures IssuesOf(files[..i + 1], s) == IssuesOf(files[..i], s) + FileIssues(files[i], s)
  {
    assert files[..i + 1][..i] == files[..i];
  }

  method BuildIssueList(files: seq<FileReport>) returns (issues: map<Severity, seq<Issue>>)
    ensures issues == map[High := IssuesOf(files, High), Medium := IssuesOf(files, Medium), Low := IssuesOf(files, Low)]
    ensures issues.Keys == {High, Medium, Low}
  {
    var high, medium, low := [], [], [];
    for i := 0 to |files|
      invariant high == IssuesOf(files[..i], High) && medium == IssuesOf(files[..i], Medium) && low == IssuesOf(files[..i], Low)
    {
      var fileHigh, fileMedium := FileEntries(files[i]);
      IssuesOfSnoc(files, i, High);
      IssuesOfSnoc(files, i, Medium);
      IssuesOfSnoc(files, i, Low);
      NoLowMethodIssues(files[i].path, files[i].methods);
      high := high + fileHigh;
      medium := medium + fileMedium;
    }
    assert files[..|files|] == files;
    issues := map[High := high, Medium := medium, Low := low];
  }

  /** One pass of build_issue_list's file loop: the High and Medium entries the file appends. */
  method FileEntries(f: FileReport) returns (high: seq<Issue>, medium: seq<Issue>)
    ensures high == FileIssues(f, High) && medium == FileIssues(f, Medium)
  {
    high, medium := [], [];
    for j := 0 to |f.methods|
      invariant high == MethodIssues(f.path, f.methods[..j], High) && medium == MethodIssues(f.path, f.methods[..j], Medium)
    {
      assert f.methods[..j + 1][..j] == f.methods[..j];
      var m := f.methods[j];
      var severity := ClassifySeverity(m);
      if severity == Low {
        continue;
      }
      var descriptor := MethodIssue(f.path, m.name, m.loc, m.parameters, m.complexity);
      if severity == High {
        high := high + [descriptor];
      } else {
        medium := medium + [descriptor];
      }
    }
    assert f.methods[..|f.methods|] == f.methods;
    if LowDocCoverage(f) {
      medium := medium + [MissingDocs(f.path, f.docLines, f.totalLines)];
    }
    if LargeSparseFile(f) {
      medium := medium + [SparseComments(f.path, f.totalLines)];
    }
  }
}
