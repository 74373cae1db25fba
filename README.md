# AssemblyChain core, modelled in Dafny

AssemblyChain plans the disassembly (and assembly) of multi-part objects.
This project models the parts of it whose logic is discrete, and proves what
that logic promises:

- **The two audit scripts.** `scripts/generate_src_report.py` and `repo_audit.py`
  read C# source text. The model covers the line classifier with its "inside a
  block comment" flag, the brace-depth body extraction, parameter counting, the
  complexity and documentation heuristics, the namespace dependency map, the
  sliding-window duplicate detection, and the severity and issue classification.
  Regular-expression matches are inputs: positions, groups and counts supplied
  by the caller.
- **The managed solver fallback of `OrToolsBackend`.** This covers:
  - the textual constraints `requires:N`, `implies:a->b`, `forbid` and the SAT
    literals `Pi`, `-Pi`;
  - the dependency graph those constraints build;
  - Kahn's topological sort with the smallest ready index first, and its cycle
    detection;
  - the brute-force maximum SAT assignment;
  - the implication and forbidden-part validations;
  - plan steps;
  - the mapping from each stage's exception to a solver outcome.

  `or_tools_spec.dfy` states all of this as functions. `or_tools_backend.dfy`
  holds the diagnostics object and loops of the program, each method proved to
  compute its function. `or_tools_facts.dfy` proves what the backend promises
  about those functions. `dependency_graph.dfy` holds the graph, its smallest
  topological order and `Filter`.
- **The tree-search planner loop** (`TreeSearchSolver.Solve`). The path test and
  the stability analysis are oracle parameters.
- **The integer mesh utilities** of both `MeshRepair.cs` copies and of
  `MeshValidator.cs`:
  - face signatures;
  - in-place duplicate-face removal;
  - fan triangulation of holes;
  - grouping naked-edge pairs into loops;
  - the validator's checks and report.

  A mesh is a sequence of four-index faces. Rhino's geometric readings (validity,
  areas, normals, the bounding box) are fields or parameters.
- **Graph and model utilities:**
  - lexicographic combination generation and candidate ranking;
  - motion-model group keys;
  - `P`-prefixed part ids and symmetric neighbour maps;
  - the adjacency and blocking graph builders;
  - in-degree and component bookkeeping;
  - the constraint graph builder and its external blockers;
  - the contact graph builder and the contact zone extractor;
  - solver-model reversal;
  - narrow-phase result merging.
- **Domain entities and records:**
  - the mutable `Assembly` (a class whose part and sub-assembly lists change in
    place) and `Joint` with its `JointLimits`;
  - `Entity` equality;
  - the validated immutable records;
  - the `AssemblyBuilder` and `PartCreationProcessor` front ends, which count
    every input as exactly one success or one failure.

Code that updates state step by step is modelled imperatively: classes with
`modifies` clauses, `while`/`for` loops with invariants. Each such method is
proved equal to a reference function, and the properties are proved as lemmas
about that function. Pure code (LINQ queries, record constructors,
expressions) is modelled as functions. Integers are unbounded. C#'s 32-bit
behaviour is written out where it matters:
- `int.TryParse` ranges;
- `id + 1` wrap-around;
- the shift `1 << n` in the SAT search, which takes its count modulo 32.

## Model

| member | source | states |
|---|---|---|
| SrcReport.Classify | scripts/generate_src_report.py:99-117 | one line kind per input line |
| SrcReport.KindsPartition | scripts/generate_src_report.py:118-119 | blank, comment and code counts add up to the number of lines |
| SrcReport.BlankCountIgnoresBlocks | scripts/generate_src_report.py:102-104 | the blank count is exactly the number of lines that strip to nothing, whatever the block-comment state |
| SrcReport.InsideBlockIsComment | scripts/generate_src_report.py:105-109 | inside a block comment a non-blank line is a comment, and the block stays open exactly when the line lacks "*/" |
| SrcReport.OpenerOpensBlock | scripts/generate_src_report.py:110-114 | outside a block, a line starting with "/*" and lacking "*/" is a comment that opens a block |
| SrcReport.ClassifyStripped | scripts/generate_src_report.py:101-117 | the branches of the loop body give the classifier's kind and next block state |
| SrcReport.ComputeLineMetrics | scripts/generate_src_report.py:94-119 | total is the number of split lines, blank/comment/code are the classifier's counts, all non-negative, and code + comment + blank = total |
| SrcReport.CountLines | scripts/generate_src_report.py:99-117 | the loop's counters equal the classifier's counts over all lines |
| SrcReport.TallyLine | scripts/generate_src_report.py:100-117 | one turn advances the block state and the counts by the line's kind |
| SrcReport.TallyStep | scripts/generate_src_report.py:100-117 | the counts over one more line grow by that line's kind only |
| SrcReport.CloseFrom | scripts/generate_src_report.py:134-145 | the closing brace found is a '}' where the depth first returns to 0, the depth staying at least 1 before it; with none the depth never returns to 0 |
| SrcReport.BlockTextBalanced | scripts/generate_src_report.py:134-143 | a block cut at its matching brace is brace-balanced: depth 0 at the end, never negative on a prefix |
| SrcReport.BlockBodyBalanced | scripts/generate_src_report.py:124-143 | when a "{" comes first and closes, the body extract_method_body returns is brace-balanced |
| SrcReport.ArrowBody | scripts/generate_src_report.py:125-131 | with "=>" on the current line before any "{", the body is flagged as an expression, starts with "=>" and holds no newline |
| SrcReport.ExtractMethodBody | scripts/generate_src_report.py:122-145 | returns the specification's body and flag; an expression body starts with "=>" |
| SrcReport.ScanBlock | scripts/generate_src_report.py:134-145 | the text strictly between the "{" and its matching brace, or everything after the "{" when none closes |
| SrcReport.FindClose | scripts/generate_src_report.py:134-145 | the depth-counting loop stops exactly at the first brace that brings the depth back to 0 |
| SrcReport.BraceTurn | scripts/generate_src_report.py:137-144 | one character moves the depth by its brace and closes the block exactly at depth 0 |
| SrcReport.EstimateComplexity | scripts/generate_src_report.py:148-151 | at least 1; 1 for an empty body, otherwise one more than the keyword matches |
| SrcReport.HasDocumentation | scripts/generate_src_report.py:154-162 | true exactly when the first non-blank line above the signature starts with "///"; false when only blank lines remain |
| SrcReport.LineAboveExists | scripts/generate_src_report.py:155-157 | the index has_documentation starts from is inside the line list |
| SrcReport.RemoveAngleGroups | scripts/generate_src_report.py:174 | deleting generic groups never lengthens the text |
| SrcReport.ParameterCount | scripts/generate_src_report.py:170-175 | 0 for a blank parameter list, never more than the comma pieces |
| SrcReport.ParameterCountOfPlainList | scripts/generate_src_report.py:170-175 | a list of non-blank declarations without generics or commas counts one per declaration |
| SrcReport.OpenerIndex | scripts/generate_src_report.py:177 | the method's own "{" or "=>", inside the match |
| SrcReport.AnalyzeMethodAsWritten | scripts/generate_src_report.py:165-195 | the record as written reads the body from match.end() |
| SrcReport.AnalyzeMethod | scripts/generate_src_report.py:165-195 | the corrected record reads the body from the method's own opener; its complexity and start line are at least 1 |
| SrcReport.OwnBlockBody | scripts/generate_src_report.py:177-178 | read from its own "{", a block-bodied method gets exactly its block text |
| SrcReport.OwnArrowBody | scripts/generate_src_report.py:177-178 | read from its own "=>", an expression-bodied method gets "=>" up to the end of its line |
| SrcReport.AsWrittenLosesBody | scripts/generate_src_report.py:177-178 | on "public void F(){x}" the as-written offset yields an empty body while the method's own opener yields "x" |
| SrcReport.AnalyzeMethods | scripts/generate_src_report.py:165-195 | one corrected record per match, in match order |
| SrcReport.AnalyzeMatch | scripts/generate_src_report.py:169-194 | the loop body builds the corrected record of one match |
| SrcReport.CollapseWhitespace | scripts/generate_src_report.py:285 | collapsing never lengthens the text |
| SrcReport.CollapsedSpacesAreSingle | scripts/generate_src_report.py:285 | after collapsing, the only white space left is single spaces |
| SrcReport.Fingerprint | scripts/generate_src_report.py:284-288 | None exactly when the collapsed body is shorter than 40 characters; a fingerprint has at least 40; lower() changes the case of ASCII letters only |
| SrcReport.FileFingerprints | scripts/generate_src_report.py:283-288 | one fingerprint per method of the file, read at its body offset |
| SrcReport.SightingsAreLong | scripts/generate_src_report.py:286-289 | every recorded fingerprint has at least 40 characters |
| SrcReport.GroupIsLocations | scripts/generate_src_report.py:279-289 | `seen` holds exactly the fingerprints met, each with all its locations in order, and its key order lists each once |
| SrcReport.ReportKey | scripts/generate_src_report.py:292 | a key of at most 80 characters is itself; a longer one becomes 80 characters and an ellipsis |
| SrcReport.Report | scripts/generate_src_report.py:290-293 | every reported group has at least two locations and is the whole location list of some fingerprint under its key |
| SrcReport.ShortFingerprintReported | scripts/generate_src_report.py:290-293 | a fingerprint of at most 80 characters met twice or more is reported under itself with all its locations |
| SrcReport.DetectDuplicates | scripts/generate_src_report.py:278-294 | the loops compute the specification's duplicate map |
| SrcReport.ReportRepeated | scripts/generate_src_report.py:290-293 | the reporting loop builds the report over the first-seen order |
| SrcReport.BodyFingerprint | scripts/generate_src_report.py:284-288 | the normalised body of one method, or None when it is skipped |
| SrcReport.AddFileSightings | scripts/generate_src_report.py:283-289 | the inner loop extends `seen` and its key order by the file's sightings |
| SrcReport.ClassifySeverity | scripts/generate_src_report.py:297-302 | High exactly when loc >= 60 or complexity >= 15 or params >= 6; Low exactly when loc < 35, complexity < 8 and params < 4 |
| SrcReport.SeverityMonotone | scripts/generate_src_report.py:297-302 | larger metrics never give a lower severity |
| SrcReport.MethodIssues | scripts/generate_src_report.py:309-317 | every entry describes a method of the file |
| SrcReport.IssueListsAgreeWithSeverity | scripts/generate_src_report.py:305-324 | the Low list is empty, each method entry is in the list of its own severity, and file notes are Medium |
| SrcReport.NoLowMethodIssues | scripts/generate_src_report.py:311-312 | no method entry is ever Low |
| SrcReport.MethodIssuesAgree | scripts/generate_src_report.py:309-317 | each method entry is the descriptor of a method of that severity |
| SrcReport.BuildIssueList | scripts/generate_src_report.py:305-324 | the three lists of the specification, under exactly the keys High, Medium and Low |
| SrcReport.FileEntries | scripts/generate_src_report.py:308-323 | the High and Medium entries one file appends |
| RepoAudit.StripBlockComments | repo_audit.py:122 | removing comments never lengthens the text |
| RepoAudit.LiteralEnd | repo_audit.py:124 | a string literal found ends on a closing quote past its start |
| RepoAudit.StripStringLiterals | repo_audit.py:124 | emptying string literals never lengthens the text |
| RepoAudit.CharLiteralLength | repo_audit.py:125 | a character literal is three or four characters between apostrophes, or absent |
| RepoAudit.StripCharLiterals | repo_audit.py:125 | emptying character literals never lengthens the text |
| RepoAudit.StripCommentsAndStrings | repo_audit.py:120-126 | the three substitutions in order never lengthen the text |
| RepoAudit.CommentFreeUnchanged | repo_audit.py:122 | text without "/*" is left unchanged by the comment pass |
| RepoAudit.ClosedCommentReplaced | repo_audit.py:122 | a comment is replaced by one space up to its first "*/", and the rest is processed on |
| RepoAudit.QuoteFreeUnchanged | repo_audit.py:124 | text without a double quote is left unchanged by the string pass |
| RepoAudit.PlainLiteralEmptied | repo_audit.py:124 | a literal without quotes or backslashes inside becomes "" |
| RepoAudit.EscapedQuoteStaysInside | repo_audit.py:124 | an escaped quote does not end a literal |
| RepoAudit.ApostropheFreeUnchanged | repo_audit.py:125 | text without an apostrophe is left unchanged by the character pass |
| RepoAudit.PlainTextUnchanged | repo_audit.py:120-126 | text without quotes, apostrophes or "/*" is left unchanged by the whole strip |
| RepoAudit.FileMetrics.DocRatio | repo_audit.py:64-66 | 0 for a file without lines, doc_lines / loc otherwise |
| RepoAudit.SplitCount | repo_audit.py:142 | a comma split has one more piece than there are commas |
| RepoAudit.ParameterCountBound | repo_audit.py:141-142 | 0 for a blank list, at most one more than the commas |
| RepoAudit.TwoPiecesCounted | repo_audit.py:141-142 | two non-blank pieces around one comma count 2 |
| RepoAudit.GenericArgumentsSplit | repo_audit.py:141-142 | the plain split counts the comma inside "D<a,b> m", giving 2 |
| RepoAudit.UnmatchedFrom | repo_audit.py:146-152 | the brace found is a '}' that takes the depth below zero for the first time; with none the depth never goes negative |
| RepoAudit.FirstUnmatchedClose | repo_audit.py:146-152 | the first '}' after the match that takes the depth below zero, or none |
| RepoAudit.NoCloseOffsetIsZero | repo_audit.py:153-154 | the offset added when no brace closes is always 0 |
| RepoAudit.LineNumberSplit | repo_audit.py:143 | the line of a later position is the earlier line plus the newlines between |
| RepoAudit.EndLineFacts | repo_audit.py:143-154 | the corrected end line is at least the start line, the line of the unmatched '}' when there is one and the start line otherwise |
| RepoAudit.EndLineShortfall | repo_audit.py:151 | as written, the end line falls short by exactly the newlines inside the match |
| RepoAudit.NewlineThenClose | repo_audit.py:146-152 | on "\n}" the unmatched brace is at index 1 |
| RepoAudit.AsWrittenEndLineIsEarly | repo_audit.py:143-151 | for a header followed by "\n{\n}" the brace is on line 3, but as written the end line is 2 |
| RepoAudit.Complexity | repo_audit.py:155-156 | at least 1 |
| RepoAudit.LastThree | repo_audit.py:158 | the last three elements, or all of them when there are fewer |
| RepoAudit.ContainsAcrossNewline | repo_audit.py:158 | a newline-free pattern occurs in two lines joined by a newline exactly when it occurs in one of them |
| RepoAudit.JoinContains | repo_audit.py:158 | a newline-free pattern occurs in newline-joined lines exactly when it occurs in one of them |
| RepoAudit.DocPresentIff | repo_audit.py:157-158 | doc_present holds exactly when "///" occurs in one of the up to three lines before the match start |
| RepoAudit.LastThreeHas | repo_audit.py:158 | a pattern in one of the last three lines is one in a line of index at least len - 3 |
| RepoAudit.ScanEndLine | repo_audit.py:143-154 | the end line of the method, as the corrected specification defines it |
| RepoAudit.ScanBraces | repo_audit.py:146-152 | the brace loop stops exactly at the first unmatched '}' |
| RepoAudit.MeasureMethod | repo_audit.py:141-167 | the record appended for one match |
| RepoAudit.ComputeFileMetrics | repo_audit.py:129-182 | the file's metrics as the specification defines them |
| RepoAudit.MeasureMethods | repo_audit.py:139-167 | one record per match, in match order |
| RepoAudit.TotalAtLeastCount | repo_audit.py:169 | the complexity total is at least the number of methods |
| RepoAudit.FileMetricsFacts | repo_audit.py:129-182 | sloc <= loc, method_count = number of matches, every complexity >= 1, every span has start <= end and ends at the end line, and complexity_total >= method_count |
| RepoAudit.AddUsingsEdge | repo_audit.py:192-195 | after one file, an edge exists exactly when it existed or the file declares it with a non-System using |
| RepoAudit.AddUsingsKeys | repo_audit.py:192-195 | a namespace becomes a key exactly when it keeps at least one using, and keys never have empty edge sets |
| RepoAudit.GraphOfEdge | repo_audit.py:185-196 | an edge is in the graph exactly when some file with that namespace declares the using, not starting with "System" |
| RepoAudit.GraphOfKeys | repo_audit.py:185-196 | every key has at least one edge |
| RepoAudit.BuildDependencyGraph | repo_audit.py:185-196 | the loop builds the sorted graph of the specification |
| RepoAudit.DependencyGraphSorted | repo_audit.py:196 | keys strictly ascending, every edge list strictly ascending and non-empty |
| RepoAudit.DependencyGraphEdges | repo_audit.py:185-196 | the sorted graph lists exactly the declared edges |
| RepoAudit.Normalize | repo_audit.py:203-204 | never more lines than the input |
| RepoAudit.NormalizedLine | repo_audit.py:203-204 | right-stripping keeps a line's blankness |
| RepoAudit.NormalizeFacts | repo_audit.py:203-204 | the normalised lines are the non-blank ones, each clean |
| RepoAudit.NormalizedLinesFacts | repo_audit.py:203-204 | as many normalised lines as non-blank lines of the text, each clean |
| RepoAudit.WindowsUpTo | repo_audit.py:205-208 | window k holds lines k..k+window with 1-based start k + 1 |
| RepoAudit.FileWindows | repo_audit.py:205-208 | max(0, n - window + 1) windows, none when the file is shorter than the window, with 1-based starts |
| RepoAudit.Pairs | repo_audit.py:207-208 | one (digest, occurrence) pair per window |
| RepoAudit.ChunksKeys | repo_audit.py:208-209 | `chunks` and `seen` have the same keys |
| RepoAudit.FirstChunkOf | repo_audit.py:209 | the chunk kept for a digest is the first window's with that digest |
| RepoAudit.OrderRecorded | repo_audit.py:200-209 | the first-seen order of the digests, `seen` and `chunks` agree |
| RepoAudit.ScanFile | repo_audit.py:205-209 | the window loop of one file extends `seen`, its order and `chunks` by that file's windows |
| RepoAudit.ScanFiles | repo_audit.py:202-209 | the first loop over all files leaves `seen`, its first-seen order and `chunks` as the specification's tables of every window |
| RepoAudit.ReportBlocks | repo_audit.py:210-215 | the second loop reports, in first-seen order, every digest whose occurrences span more than one file, with its first chunk and all its occurrences |
| RepoAudit.DetectDuplicateBlocks | repo_audit.py:199-215 | the loops compute the specification's duplicate blocks |
| RepoAudit.WindowOrigin | repo_audit.py:202-208 | every window comes from some file at its recorded start |
| RepoAudit.WindowShape | repo_audit.py:206 | every window has exactly `window` lines, none holding a line break |
| RepoAudit.SameKeySameChunk | repo_audit.py:207 | two windows with the same digest have the same lines |
| RepoAudit.MoreThanOnePath | repo_audit.py:213 | more than one distinct path exactly when the occurrences span two files |
| RepoAudit.InReport | repo_audit.py:210-214 | a reported block carries the kept chunk and all occurrences of its digest, from more than one file |
| RepoAudit.ReportHas | repo_audit.py:210-214 | every digest seen in more than one file is reported |
| RepoAudit.ReportDistinct | repo_audit.py:210-214 | no digest is reported twice |
| RepoAudit.DuplicateBlocksSound | repo_audit.py:199-215 | distinct digests; each block has exactly `window` lines, spans two files, and each occurrence is such a window |
| RepoAudit.DuplicateBlocksComplete | repo_audit.py:199-215 | two equal windows in different files are reported together |
| RepoAudit.ComplexIssues | repo_audit.py:255-263 | one issue per method of complexity above 10 |
| RepoAudit.AppendFileIssues | repo_audit.py:237-263 | the file loop appends the file's issues |
| RepoAudit.ClassifyIssues | repo_audit.py:234-284 | the issue list of the specification |
| RepoAudit.ComplexIssueFrom | repo_audit.py:255-263 | every P0 entry names a method of complexity above 10 |
| RepoAudit.FileIssueCases | repo_audit.py:237-263 | a file issue is LargeFile for a large file, Documentation for undocumented methods, or HighComplexity for a complex method |
| RepoAudit.IssueCases | repo_audit.py:234-284 | every issue is a file issue, the Duplication issue when blocks exist, or the Coupling issue when edges exceed three per node |
| RepoAudit.FileP0Count | repo_audit.py:255-263 | a file has as many P0 issues as methods of complexity above 10 |
| RepoAudit.HighComplexityIssues | repo_audit.py:255-263 | one P0 per method of complexity above 10 over all files, each naming such a method |
| RepoAudit.LargeFileIff | repo_audit.py:238-245 | LargeFile is reported for a file exactly when loc > 400 or it has more than 25 methods |
| RepoAudit.DocumentationIff | repo_audit.py:246-254 | the Documentation issue is reported for a file exactly when one of its methods is undocumented |
| RepoAudit.DuplicationIssueOnce | repo_audit.py:265-272 | exactly one Duplication issue when any block exists, none otherwise |
| RepoAudit.CouplingIff | repo_audit.py:274-282 | Coupling is reported exactly when the edges exceed three times the nodes |
| RepoAudit.MethodComplexities | repo_audit.py:289 | one complexity per method |
| RepoAudit.MaxOfFacts | repo_audit.py:291 | the maximum bounds every element and is one of them; 0 for none |
| RepoAudit.ComplexitiesListed | repo_audit.py:289 | the complexity list holds exactly the complexities of all methods of all files |
| RepoAudit.TotalLocBounds | repo_audit.py:296 | every file's loc is at most the total, which is 0 exactly when every file is empty |
| RepoAudit.ComplexitiesEmpty | repo_audit.py:289-291 | the complexity list is empty exactly when no file has methods |
| RepoAudit.MaxComplexityFacts | repo_audit.py:291 | max_complexity bounds every method's complexity, is reached when there are methods, and is 0 otherwise |
| RepoAudit.SummaryFacts | repo_audit.py:287-300 | file and fragment counts, total loc and max complexity as the summary promises |
| Entities.EqualsIff | src/AssemblyChain.Core/Domain/Common/Entity.cs:20-32 | Equals holds exactly when the other object is an entity of the same runtime type with the same Id |
| Entities.EqualsEquivalence | src/AssemblyChain.Core/Domain/Common/Entity.cs:20-32 | Equals on entities is reflexive, symmetric and transitive |
| Entities.HashAgreesWithEquals | src/AssemblyChain.Core/Domain/Common/Entity.cs:34 | equal entities have equal hash codes |
| Entities.OperatorFacts | src/AssemblyChain.Core/Domain/Common/Entity.cs:36-47 | two nulls are ==, a null and an entity are not, != is the negation of ==, and == on two entities is Equals |
| PlanningGraph.NewComponent | src/AssemblyChain.Planning/Model/GraphModel.cs:68-80 | the component holds the id and flag; a null member list gives no members, otherwise exactly the listed members, each once, and a list without repeats is kept as it is |
| PlanningGraph.NewComponentSnoc | src/AssemblyChain.Planning/Model/GraphModel.cs:77 | filling the HashSet from a list one more member long appends that member unless it is already present |
| PlanningGraph.NewGraphModel | src/AssemblyChain.Planning/Model/GraphModel.cs:25-39 | the model is built exactly when every argument is non-null, holding them; otherwise the error names the first null argument in declaration order |
| PlanningGraph.GetInDegree | src/AssemblyChain.Planning/Model/GraphModel.cs:41-44 | 0 for a node without an entry, the stored degree for a node with one |
| PlanningGraph.FreePartsIff | src/AssemblyChain.Planning/Model/GraphModel.cs:46-49 | a node is free exactly when it has an entry equal to 0 (a node without an entry is not) |
| PlanningGraph.GetComponentForNode | src/AssemblyChain.Planning/Model/GraphModel.cs:51-54 | null exactly when no component holds the node, otherwise one of the components |
| PlanningGraph.FirstComponentFacts | src/AssemblyChain.Planning/Model/GraphModel.cs:51-54 | the component returned holds the node and every earlier one does not |
| PlanningGraph.NoComponentNoPartner | src/AssemblyChain.Planning/Model/GraphModel.cs:56-61 | a node in no component shares a component with nothing, itself included |
| PlanningGraph.SameComponentSymmetric | src/AssemblyChain.Planning/Model/GraphModel.cs:56-61 | sharing a component is symmetric |
| Motion.NewMotionModel | src/AssemblyChain.Core/Model/MotionModel.cs:20-28 | the model is built exactly when no argument is null; otherwise the error names the first null one |
| Motion.GetPartMotionRays | src/AssemblyChain.Core/Model/MotionModel.cs:30-33 | the rays of a known part, the empty list for any other index |
| Motion.GetGroupMotionRaysByKey | src/AssemblyChain.Core/Model/MotionModel.cs:42-45 | the empty list for an unknown key, and for a present key the rays of the first entry with that key |
| Motion.GetAllGroupKeys | src/AssemblyChain.Core/Model/MotionModel.cs:73-76 | the keys of the group dictionary, one per entry, in enumeration order |
| Motion.ParseAll | src/AssemblyChain.Core/Model/MotionModel.cs:78-81 | a successful parse yields one value per piece |
| Motion.ParseAllOk | src/AssemblyChain.Core/Model/MotionModel.cs:78-81 | when every piece parses, the result is the list of their values |
| Motion.ParseAllCons | src/AssemblyChain.Core/Model/MotionModel.cs:78-81 | parsing a list is parsing its head and then its tail |
| Motion.GroupKeyOrderFree | src/AssemblyChain.Core/Model/MotionModel.cs:35-40 | any rearrangement of the indices gives the same group key |
| Motion.GroupRaysOrderFree | src/AssemblyChain.Core/Model/MotionModel.cs:35-71 | the group rays and group feasibility do not depend on the order of the indices |
| Motion.ParseGroupKeyInverse | src/AssemblyChain.Core/Model/MotionModel.cs:78-81 | parsing the key of non-negative 32-bit indices gives them back in ascending order |
| Motion.NoRaysFeasible | src/AssemblyChain.Core/Model/MotionModel.cs:47-71 | with no rays every direction is feasible, for a part and for a group |
| Constraints.NewConstraintModel | src/AssemblyChain.Core/Model/ConstraintModel.cs:20-32 | the model is built exactly when no argument is null; otherwise the error names the first null one |
| Constraints.GetPartConstraints | src/AssemblyChain.Core/Model/ConstraintModel.cs:34-37 | the empty list for a part without constraints, and for a present part the list of the first entry with that part |
| Constraints.GetGroupConstraintsByKey | src/AssemblyChain.Core/Model/ConstraintModel.cs:39-42 | the empty list for an unknown key, and for a present key the list of the first entry with that key |
| Constraints.GroupConstraintsOrderFree | src/AssemblyChain.Core/Model/ConstraintModel.cs:44-67 | group constraints and group movability do not depend on the order of the indices |
| Constraints.PartMoveGate | src/AssemblyChain.Core/Model/ConstraintModel.cs:51-56 | a part with positive in-degree cannot move; otherwise, and for a part without an entry, the motion cone decides |
| Constraints.GroupMoveGate | src/AssemblyChain.Core/Model/ConstraintModel.cs:58-67 | one member with positive in-degree blocks the whole group |
| SolverModels.NewDgSolverModel | src/AssemblyChain.Core/Model/SolverModel.cs:28-52 | null lists throw ArgumentNullException naming the first one; different step and vector counts throw ArgumentException("Steps and Vectors must have the same length"); otherwise a valid model holding the given steps, vectors, groups, feasible and optimal flags, solve time and assembly-sequence flag, with "" for a null log, "Unknown" for a null solver type and an empty dictionary for null metadata |
| SolverModels.GetStep | src/AssemblyChain.Core/Model/SolverModel.cs:54-59 | the step at an index in [0, Count), ArgumentOutOfRangeException exactly for any other index |
| SolverModels.GetVector | src/AssemblyChain.Core/Model/SolverModel.cs:61-66 | the vector at an index in [0, Vectors.Count), ArgumentOutOfRangeException exactly for any other index |
| SolverModels.Reversed | src/AssemblyChain.Core/Model/SolverModel.cs:70-103 | the reversed copy is again a valid model |
| SolverModels.ToAssemblySequence | src/AssemblyChain.Core/Model/SolverModel.cs:68-104 | an assembly sequence is returned as it is, any other model as its reversal |
| SolverModels.ReversedShape | src/AssemblyChain.Core/Model/SolverModel.cs:70-103 | the reversal keeps the step and group counts, is flagged as an assembly sequence, re-indexes step k as k and marks it Insert, and a step whose direction equals its vector still does after the reversal |
| SolverModels.ReversedTwice | src/AssemblyChain.Core/Model/SolverModel.cs:68-104 | reversing twice gives back the vectors and groups, and every step re-indexed from 0 and marked Insert |
| SolverModels.Create | src/AssemblyChain/Planning/Model/SolverModelFactory.cs:26-76 | null steps or vectors throw ArgumentNullException, different counts throw ArgumentException, otherwise a valid model holding the steps, vectors, flags and solve time given, with groups, metadata, log and solver type defaulted |
| NarrowPhase.Success | src/AssemblyChain/IO/Contracts/NarrowPhaseResult.cs:53-65 | a successful, well-formed result holding the zones, metadata and diagnostics, absent ones as empty collections |
| NarrowPhase.Failure | src/AssemblyChain/IO/Contracts/NarrowPhaseResult.cs:72-83 | an unsuccessful, well-formed result without zones, holding the diagnostics and metadata |
| NarrowPhase.CopyEntries | src/AssemblyChain/IO/Contracts/NarrowPhaseResult.cs:103-106 | the dictionary afterwards is the old one with every source entry written over it |
| NarrowPhase.MergeMetadata | src/AssemblyChain/IO/Contracts/NarrowPhaseResult.cs:98-114 | the merged keys are both key sets; a right entry wins, a left-only entry is kept |
| NarrowPhase.Merge | src/AssemblyChain/IO/Contracts/NarrowPhaseResult.cs:90-96 | successful exactly when both are (a null other counts as a failure); zones concatenate on success and are empty otherwise; diagnostics concatenate; right-hand metadata wins |
| NarrowPhase.MergeAssociative | src/AssemblyChain/IO/Contracts/NarrowPhaseResult.cs:90-96 | merging is associative |
| NarrowPhase.MergeNeutral | src/AssemblyChain/IO/Contracts/NarrowPhaseResult.cs:90-96 | an empty success is neutral on both sides for a well-formed result |
| NarrowPhase.MergeWithFailure | src/AssemblyChain/IO/Contracts/NarrowPhaseResult.cs:90-96 | merging with a null or failed result fails, keeps no zones and concatenates the diagnostics |
| Combinations.Pivot | src/AssemblyChain.Core/Motion/MotionEvaluator.cs:112-113 | the largest position below the bound whose index is below its maximum, every later one at its maximum, or -1 |
| Combinations.NextNone | src/AssemblyChain.Core/Motion/MotionEvaluator.cs:112-114 | only the last selection n-k, ..., n-1 has no successor |
| Combinations.NextCons | src/AssemblyChain.Core/Motion/MotionEvaluator.cs:112-116 | below a fixed first index the step works on the rest; after the rest's last selection it bumps the first index and resets the others |
| Combinations.NextGreater | src/AssemblyChain.Core/Motion/MotionEvaluator.cs:112-116 | a successor is lexicographically greater |
| Combinations.CombosShape | src/AssemblyChain.Core/Motion/MotionEvaluator.cs:106-116 | every selection has k increasing indices in [lo, n) |
| Combinations.CombosCount | src/AssemblyChain.Core/Motion/MotionEvaluator.cs:100-120 | there are C(n - lo, k) selections |
| Combinations.CombosComplete | src/AssemblyChain.Core/Motion/MotionEvaluator.cs:100-120 | every increasing selection of k indices from [lo, n) is listed |
| Combinations.FirstIsRun | src/AssemblyChain.Core/Motion/MotionEvaluator.cs:106-107 | the first selection is lo, ..., lo + k - 1 |
| Combinations.NextWalks | src/AssemblyChain.Core/Motion/MotionEvaluator.cs:109-119 | each selection's successor under the loop's step is the next one in the list, and the last has none |
| Combinations.CombosSorted | src/AssemblyChain.Core/Motion/MotionEvaluator.cs:109-119 | the selections come in strictly increasing lexicographic order |
| Combinations.Pick | src/AssemblyChain.Core/Motion/MotionEvaluator.cs:110 | one item per index |
| Combinations.Advance | src/AssemblyChain.Core/Motion/MotionEvaluator.cs:112-116 | done exactly when no successor exists; otherwise the index array becomes the successor |
| Combinations.GenerateCombinations | src/AssemblyChain.Core/Motion/MotionEvaluator.cs:100-120 | the yields collected are the reference list of combinations |
| Combinations.CombinationsFacts | src/AssemblyChain.Core/Motion/MotionEvaluator.cs:100-120 | none for size <= 0 or too few items; otherwise C(n, size), the i-th picking the items at the i-th increasing selection, selections in strictly increasing lexicographic order |
| Graphs.Neighbours | src/AssemblyChain.Graphs/GraphBuilders.cs:78-80 | the stored neighbours of a held node, none for any other |
| Graphs.Successors | src/AssemblyChain.Graphs/GraphBuilders.cs:88-90 | the stored successors of a held node, none for any other |
| Graphs.EmptyAdjacency | src/AssemblyChain.Graphs/GraphBuilders.cs:18 | built exactly when the part ids are distinct (a repeated key throws ArgumentException); every id maps to an empty set |
| Graphs.AddPairsOk | src/AssemblyChain.Graphs/GraphBuilders.cs:19-23 | adding the pairs succeeds exactly when every pair names known parts (otherwise KeyNotFoundException), and never changes the keys |
| Graphs.AddPairsEdges | src/AssemblyChain.Graphs/GraphBuilders.cs:19-23 | afterwards v neighbours u exactly when it did before or a pair links them in either direction |
| Graphs.AddEdges | src/AssemblyChain.Graphs/GraphBuilders.cs:19-23 | the loop computes the pair additions of the specification |
| Graphs.BuildSymmetric | src/AssemblyChain.Graphs/GraphBuilders.cs:18-25 | succeeds exactly when the ids are distinct and every pair names known parts; the errors are ArgumentException and KeyNotFoundException in that order; the graph is the undirected graph of the pairs over the ids |
| Graphs.UndirectedSymmetric | src/AssemblyChain.Graphs/GraphBuilders.cs:19-23 | in a graph built from pairs, v neighbours u exactly when u neighbours v |
| Graphs.BuildAdjacencyGraph | src/AssemblyChain.Graphs/GraphBuilders.cs:15-26 | a null assembly throws; otherwise the undirected graph of the joints over the part ids, built exactly when ids are distinct and joints name known parts |
| Graphs.BuildNonDirectionalGraph | src/AssemblyChain.Graphs/GraphBuilders.cs:34-46 | null assembly or cones throw, in that order; otherwise the undirected graph of the cones over the part ids |
| Graphs.OrientEdges | src/AssemblyChain.Graphs/GraphBuilders.cs:58-67 | after orienting, u is a key exactly when it was or is some pair's first part, and v is its successor exactly when it was or some pair directs u to v |
| Graphs.BuildDirectedGraph | src/AssemblyChain.Graphs/GraphBuilders.cs:54-70 | null cones throw; otherwise the keys are the cones' first parts and v succeeds u exactly when some cone runs from u to v |
| DomainModel.Least | src/AssemblyChain.Core/Spatial/GeometryTypes.cs:71-73 | the minimum is one of the numbers and no greater than any |
| DomainModel.Greatest | src/AssemblyChain.Core/Spatial/GeometryTypes.cs:74-76 | the maximum is one of the numbers and no less than any |
| DomainModel.BoxOfAxis | src/AssemblyChain.Core/Spatial/GeometryTypes.cs:71-78 | on each axis the box runs from the least to the greatest coordinate |
| DomainModel.BoxOfEncloses | src/AssemblyChain.Core/Spatial/GeometryTypes.cs:71-78 | the box encloses every point and touches the extremes on each axis |
| DomainModel.FromPoints | src/AssemblyChain.Core/Spatial/GeometryTypes.cs:58-79 | null points throw ArgumentNullException, no points ArgumentException; otherwise a box that encloses every point and is tight |
| DomainModel.FromPointsSmallest | src/AssemblyChain.Core/Spatial/GeometryTypes.cs:58-79 | every box enclosing the points contains the derived one on each axis |
| DomainModel.NullOrEmptyError | src/AssemblyChain.Core/DomainModel/AssemblyRecords.cs:22-23 | no exception exactly for a non-empty string; ArgumentNullException for null and ArgumentException for "" |
| DomainModel.NewGeometryPrimitive | src/AssemblyChain.Core/DomainModel/AssemblyRecords.cs:184-196 | built exactly when the id is non-empty and there is at least one vertex; otherwise the first check that fails names its argument; the result holds the arguments |
| DomainModel.AllVerticesContains | src/AssemblyChain.Core/DomainModel/AssemblyRecords.cs:36 | every vertex of every primitive is among the flattened vertices |
| DomainModel.NewPart | src/AssemblyChain.Core/DomainModel/AssemblyRecords.cs:15-37 | built exactly when id and name are non-empty and the IEEE guard `mass <= 0` is false, errors in that order, the mass error an ArgumentOutOfRangeException on "mass" with "Mass must be positive."; the result holds the arguments, its geometry defaults to empty, and its geometry array is the shared empty one for null or empty geometry and the caller's own allocation otherwise |
| DomainModel.NewPartMassPositive | src/AssemblyChain.Core/DomainModel/AssemblyRecords.cs:24-27 | away from NaN the guard admits exactly the masses above zero |
| DomainModel.NaNMassAccepted | src/AssemblyChain.Core/DomainModel/AssemblyRecords.cs:24-27 | a NaN mass passes the guard and the part is built with mass NaN |
| DomainModel.PartBoxEnclosesGeometry | src/AssemblyChain.Core/DomainModel/AssemblyRecords.cs:34-36 | the box of a constructed part encloses every vertex of every primitive |
| DomainModel.NewJoint | src/AssemblyChain.Core/DomainModel/AssemblyRecords.cs:57-66 | built exactly when id, partA and partB are non-empty, errors in that order; a null or blank type becomes "unknown", any other is kept |
| DomainModel.NewJointIdempotent | src/AssemblyChain.Core/DomainModel/AssemblyRecords.cs:57-66 | rebuilding a joint from its own fields returns the same joint |
| DomainModel.NewAssembly | src/AssemblyChain.Core/DomainModel/AssemblyRecords.cs:82-94 | built exactly when the id is non-empty and parts and joints are non-null, errors in that order; metadata defaults to empty |
| DomainModel.NewAssemblyValid | src/AssemblyChain.Core/DomainModel/AssemblyRecords.cs:82-94 | an assembly of constructed parts and joints is built and valid |
| DomainModel.JointsFor | src/AssemblyChain.Core/DomainModel/AssemblyRecords.cs:108-109 | a joint is listed exactly when it is one of the assembly's joints and touches the part at either end |
| DomainModel.JointsForInOrder | src/AssemblyChain.Core/DomainModel/AssemblyRecords.cs:108-109 | the result is the Where of the joints by touching the part: the joints at the ascending positions that touch the part, each once, in joint order |
| DomainModel.JointsForBothEnds | src/AssemblyChain.Core/DomainModel/AssemblyRecords.cs:108-109 | every joint is listed for both of its endpoints |
| DomainModel.PartLookupOkIff | src/AssemblyChain.Core/DomainModel/AssemblyRecords.cs:93 | the lookup fails exactly when two parts share an id but are not equal records, where record equality compares the geometry arrays by identity |
| DomainModel.PartLookup | src/AssemblyChain.Core/DomainModel/AssemblyRecords.cs:93-106 | built exactly when no two parts share an id without being equal records (geometry arrays compared by identity); its keys are the part ids, each mapping to a part with that id |
| DomainModel.PairLookup | src/AssemblyChain.Core/DomainModel/AssemblyRecords.cs:93 | two parts with one id give a one-entry lookup when they are equal and the duplicate-key ArgumentException otherwise |
| DomainModel.SeparatelyBuiltPartsConflict | src/AssemblyChain.Core/DomainModel/AssemblyRecords.cs:33 | two parts built from equal arguments but separate allocations of a non-empty geometry list are different records, so the lookup rejects them |
| DomainModel.GeometryFreePartsShare | src/AssemblyChain.Core/DomainModel/AssemblyRecords.cs:33 | parts built without geometry share Array.Empty and are equal whatever the allocation, so the lookup keeps one; one built from an empty list holds ImmutableArray's empty array and conflicts with it |
| DomainModel.NewPlanStep | src/AssemblyChain.Core/DomainModel/AssemblyRecords.cs:117-130 | built exactly when index >= 0 and action and partId are non-empty, errors in that order; the step holds the arguments |
| DomainModel.NewAssemblyPlan | src/AssemblyChain.Core/DomainModel/AssemblyRecords.cs:146-153 | built exactly when the name is non-empty and steps non-null, errors in that order; diagnostics default to empty |
| DomainEntities.NewJointLimits | src/AssemblyChain.Core/Domain/Entities/Joint.cs:129-136 | rejected with the message exactly when min >= max under IEEE comparison; otherwise holds both bounds |
| DomainEntities.NewJointLimitsOrdered | src/AssemblyChain.Core/Domain/Entities/Joint.cs:127-136 | without NaN, construction succeeds exactly when min < max, and the result then has limits |
| DomainEntities.NaNBoundHasNoLimits | src/AssemblyChain.Core/Domain/Entities/Joint.cs:127-136 | a NaN minimum passes the guard and the value built has no limits |
| DomainEntities.NewJointLimitsChecked | src/AssemblyChain.Core/Domain/Entities/Joint.cs:127-136 | the intended guard: accepted exactly when min < max, and then HasLimits holds |
| DomainEntities.UnlimitedAccepted | src/AssemblyChain.Core/Domain/Entities/Joint.cs:138-139 | both guards accept the unlimited range (-inf, +inf), which has limits |
| DomainEntities.JointError | src/AssemblyChain.Core/Domain/Entities/Joint.cs:50-54 | no exception exactly when both parts are non-null with different Ids; otherwise null partA, null partB, then the same-part error |
| DomainEntities.Joint.constructor | src/AssemblyChain.Core/Domain/Entities/Joint.cs:46-60 | a new joint holds its arguments, is active, and has the unlimited range when no limits are given |
| DomainEntities.Joint.Activate | src/AssemblyChain.Core/Domain/Entities/Joint.cs:65-71 | the joint is active afterwards |
| DomainEntities.Joint.Deactivate | src/AssemblyChain.Core/Domain/Entities/Joint.cs:73-79 | the joint is inactive afterwards |
| DomainEntities.Joint.GetOtherPart | src/AssemblyChain.Core/Domain/Entities/Joint.cs:89-94 | defined exactly for an involved Id: the end whose Id differs; ArgumentException otherwise |
| DomainEntities.Joint.OtherOfOther | src/AssemblyChain.Core/Domain/Entities/Joint.cs:81-94 | the other end of the other end is the part one started from |
| DomainEntities.NewJoint | src/AssemblyChain.Core/Domain/Entities/Joint.cs:46-60 | fails exactly with the constructor's first failing check; otherwise a fresh, valid, active joint holding the arguments |
| DomainEntities.TotalPartCount | src/AssemblyChain.Core/Domain/Entities/Assembly.cs:51 | the total count equals the number of parts GetAllParts yields |
| DomainEntities.FirstWithId | src/AssemblyChain.Core/Domain/Entities/Assembly.cs:164-165 | none exactly when no part has the Id, otherwise a part with the Id |
| DomainEntities.FirstWithIdConcat | src/AssemblyChain.Core/Domain/Entities/Assembly.cs:162-176 | the first match in a concatenation comes from the first part that has one |
| DomainEntities.GetPartIsFirst | src/AssemblyChain.Core/Domain/Entities/Assembly.cs:162-176 | GetPart returns the first part with the Id in GetAllParts order |
| DomainEntities.AnyPartIff | src/AssemblyChain.Core/Domain/Entities/Assembly.cs:39-49 | the recursive Any over parts and sub-assemblies asks the same as an Any over GetAllParts |
| DomainEntities.PhysicsParts | src/AssemblyChain.Core/Domain/Entities/Assembly.cs:196-199 | a part is listed exactly when it is one of the parts and has physics, and no more are listed than there are parts |
| DomainEntities.PhysicsPartsInOrder | src/AssemblyChain.Core/Domain/Entities/Assembly.cs:196-199 | the result is the Where of the parts by physics: the parts at the ascending positions with physics, each once, in order |
| DomainEntities.WalkSubAssemblies | src/AssemblyChain.Core/Domain/Entities/Assembly.cs:215-228 | the walk over one shared visited set reports a cycle exactly as the recursive definition does, and hands the set back unchanged when it finds none |
| DomainEntities.HasCircularReferenceIff | src/AssemblyChain.Core/Domain/Entities/Assembly.cs:215-228 | a cycle is reported exactly when some sub-assembly's Id was visited or a cycle is found below it with its Id added |
| DomainEntities.AcyclicRoutesFresh | src/AssemblyChain.Core/Domain/Entities/Assembly.cs:215-228 | without a reported cycle every route through the sub-assemblies meets only fresh Ids |
| DomainEntities.CycleRoute | src/AssemblyChain.Core/Domain/Entities/Assembly.cs:215-228 | a reported cycle has a route that meets a visited Id or one Id twice |
| DomainEntities.IsValidIff | src/AssemblyChain.Core/Domain/Entities/Assembly.cs:204-213 | IsValid holds exactly when part Ids are unique and no route from the root meets the root's or any other Id twice |
| DomainEntities.FirstEqual | src/AssemblyChain.Core/Domain/Entities/Assembly.cs:126-129 | the index List.Remove removes: none when no element is the same entity, otherwise such an element |
| DomainEntities.RemovedIsFirstId | src/AssemblyChain.Core/Domain/Entities/Assembly.cs:134-138 | the part found by Id is present by entity equality, and for coherent parts it is the first with the Id |
| DomainEntities.FirstEqualIsFirstId | src/AssemblyChain.Core/Domain/Entities/Assembly.cs:126-138 | for coherent parts entity equality is Id equality, so List.Remove removes the first part with the Id |
| DomainEntities.FirstSubWithId | src/AssemblyChain.Core/Domain/Entities/Assembly.cs:154-157 | the index of the first sub-assembly with the Id, none when there is none |
| DomainEntities.Assembly.constructor | src/AssemblyChain.Core/Domain/Entities/Assembly.cs:88-96 | a new assembly holds Id and description, "Assembly_{id}" for a missing name, no parts and no sub-assemblies |
| DomainEntities.Assembly.CheckValid | src/AssemblyChain.Core/Domain/Entities/Assembly.cs:204-213 | the answer is IsValid of the assembly's state |
| DomainEntities.Assembly.UpdateName | src/AssemblyChain.Core/Domain/Entities/Assembly.cs:98-107 | a null or blank name is rejected with ArgumentException and nothing changes; otherwise only the name changes |
| DomainEntities.Assembly.UpdateDescription | src/AssemblyChain.Core/Domain/Entities/Assembly.cs:109-115 | only the description changes |
| DomainEntities.Assembly.AddPart | src/AssemblyChain.Core/Domain/Entities/Assembly.cs:117-122 | a null part is rejected and nothing changes; otherwise the part is appended and nothing else changes |
| DomainEntities.Assembly.RemovePart | src/AssemblyChain.Core/Domain/Entities/Assembly.cs:126-129 | removed exactly when some part is the same entity; then the first such part is cut out, otherwise nothing changes |
| DomainEntities.Assembly.RemovePartById | src/AssemblyChain.Core/Domain/Entities/Assembly.cs:134-138 | removed exactly when some part has the Id; then the first equal part is cut out, which for coherent parts is the first with the Id |
| DomainEntities.Assembly.AddSubAssembly | src/AssemblyChain.Core/Domain/Entities/Assembly.cs:143-150 | null and an assembly with this Id are rejected in that order and nothing changes; otherwise the sub-assembly's state is appended |
| DomainEntities.Assembly.RemoveSubAssembly | src/AssemblyChain.Core/Domain/Entities/Assembly.cs:154-157 | removed exactly when some sub-assembly has the given Id; then the first such one is cut out, otherwise nothing changes |
| Processing.ValidParts | src/AssemblyChain.Core/Toolkit/Processing/AssemblyBuilder.cs:33 | a part is listed exactly when it is a non-null entry, and no more are listed than there are entries |
| Processing.ValidPartsInOrder | src/AssemblyChain.Core/Toolkit/Processing/AssemblyBuilder.cs:33 | the result is the Where of the entries by non-null, unwrapped: the entries at the ascending non-null positions, each once, in order |
| Processing.ValidPlusNull | src/AssemblyChain.Core/Toolkit/Processing/AssemblyBuilder.cs:32-34 | kept entries plus null entries are all entries |
| Processing.AssemblyName | src/AssemblyChain.Core/Toolkit/Processing/AssemblyBuilder.cs:31 | never empty: "Assembly" for a blank base name, else the trimmed name |
| Processing.BuildMessages | src/AssemblyChain.Core/Toolkit/Processing/AssemblyBuilder.cs:47-66 | the skip warning comes first exactly when something failed; the last message is the error when nothing succeeded and the report, a remark, otherwise |
| Processing.CreateAssembly | src/AssemblyChain.Core/Toolkit/Processing/AssemblyBuilder.cs:69-78 | a fresh assembly with Id 0, the name, no description and exactly the parts in order |
| Processing.Build | src/AssemblyChain.Core/Toolkit/Processing/AssemblyBuilder.cs:27-67 | null parts throw; otherwise successes are the non-null parts and failures the nulls, summing to the input count; an assembly exactly when some part is valid, holding those parts; the messages as stated above |
| Processing.CreatePartName | src/AssemblyChain.Geometry/Toolkit/Processing/PartCreationProcessor.cs:180-188 | "Part_{index}" for a blank base name, "{base}_{index}" otherwise |
| Processing.ItemFor | src/AssemblyChain.Geometry/Toolkit/Processing/PartCreationProcessor.cs:145-163 | a Part exactly when physics is requested and supplied, otherwise the geometry; the Part carries the geometry's id, the name and the physics |
| Processing.MergeMeshes | src/AssemblyChain.Geometry/Toolkit/Processing/PartCreationProcessor.cs:132-143 | the merged mesh has the validity Rhino reports, and no meshes merge into an empty mesh |
| Processing.MeshOutcome | src/AssemblyChain.Geometry/Toolkit/Processing/PartCreationProcessor.cs:77-97 | a mesh makes an item exactly when it is non-null and valid; otherwise the invalid-mesh warning |
| Processing.BrepOutcome | src/AssemblyChain.Geometry/Toolkit/Processing/PartCreationProcessor.cs:99-130 | a brep makes an item exactly when it is valid, meshes into at least one mesh and the merged mesh is valid; otherwise the invalid-brep, meshing-failed or invalid-mesh warning, checked in that order |
| Processing.RecordAllCounts | src/AssemblyChain.Geometry/Toolkit/Processing/PartCreationProcessor.cs:45-48 | every input leaves its own message in order and counts once, as a success exactly when it made an item |
| Processing.SummaryPhysicsIff | src/AssemblyChain.Geometry/Toolkit/Processing/PartCreationProcessor.cs:172-178 | the summary ends in " (with physics)" exactly when physics is applied |
| Processing.MeshOutcomes | src/AssemblyChain.Geometry/Toolkit/Processing/PartCreationProcessor.cs:45-48 | one outcome per mesh, the outcome of that mesh at its index |
| Processing.BrepOutcomes | src/AssemblyChain.Geometry/Toolkit/Processing/PartCreationProcessor.cs:68-71 | one outcome per brep, the outcome of that brep at its index |
| Processing.NoInputFacts | src/AssemblyChain.Geometry/Toolkit/Processing/PartCreationProcessor.cs:39-43 | no input gives exactly one message, an error, and nothing counted or created |
| Processing.CreationFacts | src/AssemblyChain.Geometry/Toolkit/Processing/PartCreationProcessor.cs:31-52 | every input counts once, leaves its own message in order, the last message is the summary, and every item is a Part exactly when physics is applied |
| Processing.PartCreationResult.constructor | src/AssemblyChain.Geometry/Toolkit/Processing/PartCreationProcessor.cs:23-29 | a new result is empty with both counts 0 |
| Processing.RegisterInvalidGeometry | src/AssemblyChain.Geometry/Toolkit/Processing/PartCreationProcessor.cs:165-170 | the result records one skipped input with the invalid-geometry warning |
| Processing.AddPartOrGeometry | src/AssemblyChain.Geometry/Toolkit/Processing/PartCreationProcessor.cs:145-163 | the result records one made item and its message |
| Processing.ProcessMesh | src/AssemblyChain.Geometry/Toolkit/Processing/PartCreationProcessor.cs:77-97 | the result records the mesh's outcome |
| Processing.ProcessBrep | src/AssemblyChain.Geometry/Toolkit/Processing/PartCreationProcessor.cs:99-130 | the result records the brep's outcome |
| Processing.FinalizeResult | src/AssemblyChain.Geometry/Toolkit/Processing/PartCreationProcessor.cs:172-178 | only the summary message is appended |
| Processing.RecordMeshAt | src/AssemblyChain.Geometry/Toolkit/Processing/PartCreationProcessor.cs:45-48 | one loop turn records input i after the ones before it |
| Processing.ProcessAllMeshes | src/AssemblyChain.Geometry/Toolkit/Processing/PartCreationProcessor.cs:45-48 | after the loop every input is recorded in order |
| Processing.FromMeshes | src/AssemblyChain.Geometry/Toolkit/Processing/PartCreationProcessor.cs:31-52 | null meshes, then null options, throw; otherwise the creation result of the mesh outcomes |
| Processing.RecordBrepAt | src/AssemblyChain.Geometry/Toolkit/Processing/PartCreationProcessor.cs:68-71 | one loop turn records input i after the ones before it |
| Processing.ProcessAllBreps | src/AssemblyChain.Geometry/Toolkit/Processing/PartCreationProcessor.cs:68-71 | after the loop every input is recorded in order |
| Processing.FromBreps | src/AssemblyChain.Geometry/Toolkit/Processing/PartCreationProcessor.cs:54-75 | null breps, then null options, throw; otherwise the creation result of the brep outcomes |
| TreeSearch.BlockedMessage | src/AssemblyChain.Planning/TreeSearchSolver.cs:48 | the blocked-path line is neither the no-candidate line nor the final failure line |
| TreeSearch.UnstableMessage | src/AssemblyChain.Planning/TreeSearchSolver.cs:56 | the destabilising line is neither the no-candidate line nor the final failure line |
| TreeSearch.Remaining | src/AssemblyChain.Planning/TreeSearchSolver.cs:33 | the part ids without the grounded ones, each once |
| TreeSearch.FirstReady | src/AssemblyChain.Planning/TreeSearchSolver.cs:39 | the first remaining part whose neighbours are all placed, or none when no part is ready |
| TreeSearch.Solve | src/AssemblyChain.Planning/TreeSearchSolver.cs:26-73 | null assembly, adjacency and grounded ids throw, in that order; otherwise the loop returns the reference plan |
| TreeSearch.RemoveAtFacts | src/AssemblyChain.Planning/TreeSearchSolver.cs:49 | removing one element keeps the rest distinct and removes exactly that element |
| TreeSearch.StepSnoc | src/AssemblyChain.Planning/TreeSearchSolver.cs:61-63 | placing a ready, feasible and stable candidate extends a good step list and adds it to the placed set |
| TreeSearch.RejectKeepsInv | src/AssemblyChain.Planning/TreeSearchSolver.cs:46-58 | rejecting a candidate with a blocked or unstable line keeps the loop invariant |
| TreeSearch.PlaceKeepsInv | src/AssemblyChain.Planning/TreeSearchSolver.cs:61-63 | placing a ready, feasible and stable candidate keeps the loop invariant |
| TreeSearch.SearchGood | src/AssemblyChain.Planning/TreeSearchSolver.cs:37-64 | every turn keeps the invariant, so the loop ends in a good outcome |
| TreeSearch.SolvePlanGood | src/AssemblyChain.Planning/TreeSearchSolver.cs:26-73 | the plan places only non-grounded ids, each once, each ready, feasible and stable when placed; valid exactly when every other id was placed or rejected with one line; otherwise it ends with the two failure lines |
| TreeSearch.SolvePlanValidIff | src/AssemblyChain.Planning/TreeSearchSolver.cs:66-70 | the plan is valid exactly when the no-candidate line is not among its diagnostics |
| TreeSearch.GoodStepsIndexed | src/AssemblyChain.Planning/TreeSearchSolver.cs:61 | step k has index k and action "Place", places a non-grounded part whose neighbours were placed before it |
| TreeSearch.GoodStepsDistinct | src/AssemblyChain.Planning/TreeSearchSolver.cs:61-63 | no part is placed twice |
| TreeSearch.StepsValid | src/AssemblyChain.Planning/TreeSearchSolver.cs:61 | over an assembly of constructed parts every step passes the PlanStep constructor's checks |
| GroupCandidates.GenerateSubgroups | src/AssemblyChain.Core/Model/GroupCandidates.cs:48-57 | the loop over sizes yields the reference list of subgroups |
| GroupCandidates.CombinationShape | src/AssemblyChain.Core/Model/GroupCandidates.cs:62-78 | every combination of a size picks that many items of the list |
| GroupCandidates.SubgroupsFromShape | src/AssemblyChain.Core/Model/GroupCandidates.cs:48-57 | each subgroup has between 2 and min(maxSize, count) members, all from the list |
| GroupCandidates.SubgroupsFromOrder | src/AssemblyChain.Core/Model/GroupCandidates.cs:50 | larger subgroups come first |
| GroupCandidates.Singletons | src/AssemblyChain.Core/Model/GroupCandidates.cs:37-40 | one single-part candidate per free part, in order |
| GroupCandidates.GenerateCandidates | src/AssemblyChain.Core/Model/GroupCandidates.cs:15-43 | the loops build the reference candidate list, each component's members in the insertion order their HashSet enumerates |
| GroupCandidates.ComponentCandidatesShape | src/AssemblyChain.Core/Model/GroupCandidates.cs:23-32 | a component's candidates have at most maxSize members, all from the component |
| GroupCandidates.SccCandidatesShape | src/AssemblyChain.Core/Model/GroupCandidates.cs:21-33 | every component candidate has at most maxSize members and lies inside one component |
| GroupCandidates.CandidatesFacts | src/AssemblyChain.Core/Model/GroupCandidates.cs:15-43 | none for a null graph or maxGroupSize <= 0; otherwise no candidate exceeds maxGroupSize, the component candidates come first, each inside one component, then the free parts as singletons in order |
| GroupCandidates.EvaluateCandidate | src/AssemblyChain.Core/Model/GroupCandidates.cs:83-99 | 0 for a missing group or graph; otherwise the score of the specification, computed by one counting pass over the edges |
| GroupCandidates.CountsBounded | src/AssemblyChain.Core/Model/GroupCandidates.cs:90-96 | no edge counts as both internal and external |
| GroupCandidates.InternalCountZero | src/AssemblyChain.Core/Model/GroupCandidates.cs:93-95 | the internal count is 0 exactly when no edge runs inside the group |
| GroupCandidates.ScoreFacts | src/AssemblyChain.Core/Model/GroupCandidates.cs:83-99 | the score lies between 0 and the internal count, and is 0 exactly when the group is empty or no edge runs inside it |
| GroupCandidates.Scored | src/AssemblyChain.Core/Model/GroupCandidates.cs:109 | every candidate paired with its own score, in order |
| GroupCandidates.InsertPermutes | src/AssemblyChain.Core/Model/GroupCandidates.cs:110 | inserting adds exactly the new entry |
| GroupCandidates.InsertSorted | src/AssemblyChain.Core/Model/GroupCandidates.cs:110 | inserting into a non-increasing list keeps it non-increasing |
| GroupCandidates.InsertStable | src/AssemblyChain.Core/Model/GroupCandidates.cs:110 | among equal scores the new entry goes last |
| GroupCandidates.SortByScoreFacts | src/AssemblyChain.Core/Model/GroupCandidates.cs:110 | the ranking is non-increasing by score, a permutation of its input, and keeps input order among equal scores |
| GroupCandidates.RankCandidatesFacts | src/AssemblyChain.Core/Model/GroupCandidates.cs:104-112 | none for null candidates or graph; otherwise every candidate with its score, best first, ties in input order |
| MotionEvaluation.ComputePartMotionRays | src/AssemblyChain.Core/Motion/MotionEvaluator.cs:28-59 | one entry per part index of the neighbour map (keys and values), every ray list empty |
| MotionEvaluation.AddEmptyRays | src/AssemblyChain.Core/Motion/MotionEvaluator.cs:35-39 | the keys afterwards are the old ones plus the indices visited, each with an empty ray list |
| MotionEvaluation.PartIndicesOfContacts | src/AssemblyChain.Core/Motion/MotionEvaluator.cs:32-33 | for a neighbour map built from contacts, which is symmetric, the part indices are its keys |
| MotionEvaluation.SetEntryNew | src/AssemblyChain.Core/Motion/MotionEvaluator.cs:73 | writing a new key appends its entry |
| MotionEvaluation.SetEntrySame | src/AssemblyChain.Core/Motion/MotionEvaluator.cs:73 | writing an existing key with the value it already holds changes nothing |
| MotionEvaluation.RecordedKeys | src/AssemblyChain.Core/Motion/MotionEvaluator.cs:67-75 | each key is stored once, in the order it was first written, with an empty ray list |
| MotionEvaluation.RecordGroups | src/AssemblyChain.Core/Motion/MotionEvaluator.cs:69-74 | the inner loop writes each group under its key after the groups visited before |
| MotionEvaluation.ComputeGroupMotionRays | src/AssemblyChain.Core/Motion/MotionEvaluator.cs:61-78 | the loops compute the reference group dictionary |
| MotionEvaluation.EvaluateMotion | src/AssemblyChain.Core/Motion/MotionEvaluator.cs:18-26 | part rays and group rays as above, and the hash "motion_{hash}_{angle}_{feas}" |
| MotionEvaluation.EvaluatedModelFacts | src/AssemblyChain.Core/Motion/MotionEvaluator.cs:18-98 | the evaluated model holds each group key once, every part and group lookup finds no ray, so every motion is feasible |
| MotionEvaluation.GroupKeyParses | src/AssemblyChain.Core/Motion/MotionEvaluator.cs:71 | the key of an ascending group of non-negative 32-bit indices parses back to the group |
| MotionEvaluation.CombinationGroup | src/AssemblyChain.Core/Motion/MotionEvaluator.cs:69 | a combination of ascending parts has size members of the parts, in ascending order |
| MotionEvaluation.CombinationsDistinct | src/AssemblyChain.Core/Motion/MotionEvaluator.cs:69 | two positions of the combination list hold different groups |
| MotionEvaluation.GroupsOfSizesDistinct | src/AssemblyChain.Core/Motion/MotionEvaluator.cs:67-69 | with increasing sizes no group is visited twice |
| MotionEvaluation.GroupsOfSizesCount | src/AssemblyChain.Core/Motion/MotionEvaluator.cs:67-69 | m keys give C(m,2) + C(m,3) + C(m,4) groups |
| MotionEvaluation.KeysOfDistinctGroups | src/AssemblyChain.Core/Motion/MotionEvaluator.cs:71 | different ascending groups of non-negative 32-bit indices have different keys |
| MotionEvaluation.GroupRaysDistinct | src/AssemblyChain.Core/Motion/MotionEvaluator.cs:61-78 | with non-negative 32-bit keys no key is written twice: one entry per visited group, in visiting order |
| MotionEvaluation.GroupRaysCount | src/AssemblyChain.Core/Motion/MotionEvaluator.cs:61-78 | there are then C(m,2) + C(m,3) + C(m,4) group entries |
| MotionEvaluation.GroupRaysParse | src/AssemblyChain.Core/Motion/MotionEvaluator.cs:61-78 | each group key parses back to 2 to 4 neighbour-map keys in ascending order |
| MotionEvaluation.GroupVisited | src/AssemblyChain.Core/Motion/MotionEvaluator.cs:67-70 | every ascending group of 2 to 4 of the parts is visited |
| MotionEvaluation.GroupRaysComplete | src/AssemblyChain.Core/Motion/MotionEvaluator.cs:61-78 | every ascending group of 2 to 4 neighbour-map keys has an entry under its key |
| ContactModels.TryParsePartIndex | src/AssemblyChain.Core/Contact/ContactModel.cs:57-66 | succeeds exactly for a non-empty name starting with "P" whose rest parses as an Int32, giving that value; otherwise -1 |
| ContactModels.FormatD4Parses | src/AssemblyChain.Core/Contact/ContactModel.cs:70 | Int32 parsing reads back what ToString("D4") writes |
| ContactModels.PartNameParses | src/AssemblyChain.Core/Contact/ContactModel.cs:57-70 | parsing a formatted name "P{index:D4}" gives the index back |
| ContactModels.PartNameInjective | src/AssemblyChain.Core/Contact/ContactModel.cs:70 | different indices have different formatted names |
| ContactModels.ShortNameNotFormatted | src/AssemblyChain.Core/Contact/ContactModel.cs:57-70 | "P3" parses to 3, but the name formatted for 3 is "P0003", not "P3" |
| ContactModels.Parsed | src/AssemblyChain.Core/Contact/ContactModel.cs:30-31 | a pair of indices exactly when both names parse, holding the two parsed values |
| ContactModels.Link | src/AssemblyChain.Core/Contact/ContactModel.cs:44-48 | entering one contact adds both keys and makes each end list the other, changing nothing else |
| ContactModels.NeighbourMapKeys | src/AssemblyChain.Core/Contact/ContactModel.cs:28-49 | the keys are exactly the parts named by the parsable contacts |
| ContactModels.NeighbourMapEntries | src/AssemblyChain.Core/Contact/ContactModel.cs:28-49 | v is listed under u exactly when some parsable contact joins them |
| ContactModels.NeighbourMapSymmetric | src/AssemblyChain.Core/Contact/ContactModel.cs:44-48 | the map is symmetric: if u lists v then v is a key listing u |
| ContactModels.BuildNeighbourMap | src/AssemblyChain.Core/Contact/ContactModel.cs:28-49 | the constructor's loop computes the reference neighbour map |
| ContactModels.ContactsForPart | src/AssemblyChain.Core/Contact/ContactModel.cs:68-72 | a contact is listed exactly when it is one of the contacts and either end is named "P{index:D4}" |
| ContactModels.ContactsForPartInOrder | src/AssemblyChain.Core/Contact/ContactModel.cs:68-72 | the result is the Where of the contacts by naming the part: the contacts at the ascending positions that name it, each once, in list order |
| ContactModels.ContactsBetween | src/AssemblyChain.Core/Contact/ContactModel.cs:74-81 | exactly the contacts between the two formatted names in either orientation |
| ContactModels.ContactsBetweenInOrder | src/AssemblyChain.Core/Contact/ContactModel.cs:74-81 | the result is the Where of the contacts by joining the two parts: the contacts at the ascending positions between them, each once, in list order |
| ContactModels.ContactsBetweenSymmetric | src/AssemblyChain.Core/Contact/ContactModel.cs:74-81 | the result does not depend on the order of the two indices |
| ContactModels.ContactsBetweenInForPart | src/AssemblyChain.Core/Contact/ContactModel.cs:68-81 | a contact between two parts is a contact of each of them |
| ContactModels.ForPartMissesShortNames | src/AssemblyChain.Core/Contact/ContactModel.cs:28-72 | a contact named "P3" enters the map under 3, yet GetContactsForPart(3) does not return it |
| ContactModels.ContactsForIndexMatchesMap | src/AssemblyChain.Core/Contact/ContactModel.cs:28-49 | a part is a key of the map exactly when some contact names it by parsed index |
| ContactModels.ContactsForIndexOnPaddedNames | src/AssemblyChain.Core/Contact/ContactModel.cs:68-72 | on names in the padded form the query by parsed index and GetContactsForPart agree |
| ContactModels.NewCoreContactModel | src/AssemblyChain.Core/Model/ContactModel.cs:20-45 | null contacts, then null hash, throw; otherwise the model holds the contacts, the hash and the reference neighbour map |
| ContactModels.UniquePairsCountsParts | src/AssemblyChain.Core/Model/ContactModel.cs:18 | one contact between P3 and P4 gives UniquePairs 2 although one pair is in contact |
| ContactModels.PairsOfIff | src/AssemblyChain.Core/Model/ContactModel.cs:18 | a normalised pair is counted exactly when some contact joins its two parts |
| ContactModels.RelationsFromContacts | src/AssemblyChain.Core/Contact/ContactModel.cs:36-42 | every relation comes from a parsable contact and keeps its parsed indices |
| ContactModels.RelationsConcat | src/AssemblyChain.Core/Contact/ContactModel.cs:28-49 | relations keep input order |
| ContactModels.RelationsKeys | src/AssemblyChain.Core/Contact/ContactModel.cs:28-49 | the map's keys are exactly the parts that appear in the relations |
| ContactModels.RelationsCount | src/AssemblyChain.Core/Contact/ContactModel.cs:28-49 | one relation per parsable contact, at most one per contact |
| ContactModels.NewContactModel | src/AssemblyChain.Core/Contact/ContactModel.cs:20-55 | null contacts, then null hash, throw; otherwise one loop fills the reference relations and neighbour map |
| ContactZones.PlanesOf | src/AssemblyChain.Core/Toolkit/Processing/ContactZoneExtractor.cs:22-34 | one plane per zone |
| ContactZones.FaceOf | src/AssemblyChain.Core/Toolkit/Processing/ContactZoneExtractor.cs:95-106 | a zone exists exactly for Brep or Mesh geometry, carries the contact's plane, and holds the Brep exactly when the geometry is a Brep and the Mesh exactly when it is a Mesh |
| ContactZones.FaceContacts | src/AssemblyChain.Core/Toolkit/Processing/ContactZoneExtractor.cs:43 | keeps exactly the contacts of type Face, and no more than there were |
| ContactZones.FaceContactsInOrder | src/AssemblyChain.Core/Toolkit/Processing/ContactZoneExtractor.cs:43 | the result is the Where of the contacts by type Face: the contacts at the ascending positions of type Face, each once, in list order |
| ContactZones.AppendedFacts | src/AssemblyChain.Core/Toolkit/Processing/ContactZoneExtractor.cs:83-110 | appending a contact to a part creates its entries if missing, leaves every other part alone, adds the zone for Brep/Mesh geometry and otherwise adds no zone and one warning |
| ContactZones.AppendedBalanced | src/AssemblyChain.Core/Toolkit/Processing/ContactZoneExtractor.cs:108-109 | the zone list and the plane list of every part stay in step, plane by plane |
| ContactZones.UnknownGeometryEntryOnly | src/AssemblyChain.Core/Toolkit/Processing/ContactZoneExtractor.cs:85-106 | geometry that is neither Brep nor Mesh leaves a new part with empty entries and adds the warning |
| ContactZones.AppendedFirstZone | src/AssemblyChain.Core/Toolkit/Processing/ContactZoneExtractor.cs:85-109 | a new part's entries become the single zone and its plane |
| ContactZones.ContactZoneExtractionResult.constructor | src/AssemblyChain.Core/Toolkit/Processing/ContactZoneExtractor.cs:14-20 | a new result has no part entries and no messages |
| ContactZones.ContactZoneExtractionResult.PartIndices | src/AssemblyChain.Core/Toolkit/Processing/ContactZoneExtractor.cs:19 | the parts with geometry entries, strictly ascending, each exactly once |
| ContactZones.AppendGeometry | src/AssemblyChain.Core/Toolkit/Processing/ContactZoneExtractor.cs:83-110 | the new state is the specified append of the contact to the part |
| ContactZones.ExtractFaceContacts | src/AssemblyChain.Core/Toolkit/Processing/ContactZoneExtractor.cs:36-81 | a null list is an ArgumentNullException("contacts") and only then an error; otherwise a fresh result whose state is the specified extraction of the list |
| ContactZones.ScanKeepsMessages | src/AssemblyChain.Core/Toolkit/Processing/ContactZoneExtractor.cs:58-73 | the loop only appends messages, keeping the earlier ones as a prefix |
| ContactZones.FirstMessageIsCounts | src/AssemblyChain.Core/Toolkit/Processing/ContactZoneExtractor.cs:48-49 | every extraction has at least two messages and the first is the counts remark |
| ContactZones.NoFaceContactsStops | src/AssemblyChain.Core/Toolkit/Processing/ContactZoneExtractor.cs:51-56 | a non-empty list without face contacts ends with the counts remark and the face-contacts-required warning, and no part entries |
| ContactZones.ScanBalanced | src/AssemblyChain.Core/Toolkit/Processing/ContactZoneExtractor.cs:58-73 | the loop keeps every part's zone and plane lists in step |
| ContactZones.ExtractionBalanced | src/AssemblyChain.Core/Toolkit/Processing/ContactZoneExtractor.cs:36-81 | every part of the result has as many planes as zones, and they are the zones' planes |
| ContactZones.ScanKeys | src/AssemblyChain.Core/Toolkit/Processing/ContactZoneExtractor.cs:58-73 | after the loop a part has entries exactly when it had them or some scanned contact with parsable ids touches it |
| ContactZones.ExtractionKeys | src/AssemblyChain.Core/Toolkit/Processing/ContactZoneExtractor.cs:36-81 | the parts with entries are exactly the parts of the parsable face contacts, and none when the extraction stops early |
| ContactZones.ScanPairs | src/AssemblyChain.Core/Toolkit/Processing/ContactZoneExtractor.cs:68-69 | the loop adds exactly the normalised pairs of the parsable contacts to the neighbour set |
| ContactZones.PairsRemark | src/AssemblyChain.Core/Toolkit/Processing/ContactZoneExtractor.cs:75-76 | the second-to-last remark counts the distinct unordered neighbour pairs, each stored smaller id first |
| ContactZones.ProcessedRemark | src/AssemblyChain.Core/Toolkit/Processing/ContactZoneExtractor.cs:77-78 | the last remark counts the parts with entries |
| ContactZones.UnparsableSkipped | src/AssemblyChain.Core/Toolkit/Processing/ContactZoneExtractor.cs:60-66 | a face contact whose ids do not parse changes no entry and no pair and adds one warning |
| ContactZones.StepOneFace | src/AssemblyChain.Core/Toolkit/Processing/ContactZoneExtractor.cs:58-73 | one step over a parsable Brep face contact from an empty state gives both parts the zone and records the pair |
| ContactZones.OneFaceContact | src/AssemblyChain.Core/Toolkit/Processing/ContactZoneExtractor.cs:36-81 | a single parsable Brep face contact between two parts gives each one zone and one plane, and the messages are the counts remark, one pair and two parts |
| ContactZones.SingleFaceContact | src/AssemblyChain.Core/Toolkit/Processing/ContactZoneExtractor.cs:36-121 | the same for ids written as "P" plus the padded index |
| ContactGraphs.NodesOf | src/AssemblyChain/Geometry/Contact/ContactGraphBuilder.cs:26-31 | the node list has no repeats |
| ContactGraphs.ParsedIdsIff | src/AssemblyChain/Geometry/Contact/ContactGraphBuilder.cs:27-31 | the loop adds a part exactly when some contact's A or B name parses to it |
| ContactGraphs.NodesIff | src/AssemblyChain/Geometry/Contact/ContactGraphBuilder.cs:26-34 | a part is a node exactly when some contact's A or B name parses to it |
| ContactGraphs.NeighbourPartsAreNodes | src/AssemblyChain/Geometry/Contact/ContactGraphBuilder.cs:23-31 | every part in the contact model's neighbour map is a node of the graph |
| ContactGraphs.HalfNamedContact | src/AssemblyChain/Geometry/Contact/ContactGraphBuilder.cs:29-30 | a contact whose A name parses and whose B name does not adds A's node and no neighbour entry |
| ContactGraphs.AddNode | src/AssemblyChain/Geometry/Contact/ContactGraphBuilder.cs:29-30 | HashSet.Add appends the part unless it is already present |
| ContactGraphs.AddContactNodes | src/AssemblyChain/Geometry/Contact/ContactGraphBuilder.cs:29-30 | one contact adds its A id, then its B id, each when it parses |
| ContactGraphs.CollectNodes | src/AssemblyChain/Geometry/Contact/ContactGraphBuilder.cs:26-31 | the node set after the loop is the specified node list |
| ContactGraphs.EdgesIntoZero | src/AssemblyChain/Geometry/Contact/ContactGraphBuilder.cs:68-74 | a node has in-degree zero exactly when no edge ends at it |
| ContactGraphs.InDegreesOf | src/AssemblyChain/Geometry/Contact/ContactGraphBuilder.cs:64-76 | one entry per distinct node, in order, holding the number of edges that end at it |
| ContactGraphs.FindKey | src/AssemblyChain/Geometry/Contact/ContactGraphBuilder.cs:70 | ContainsKey: -1 exactly when the key is absent, otherwise a position holding the key |
| ContactGraphs.ZeroNode | src/AssemblyChain/Geometry/Contact/ContactGraphBuilder.cs:67 | one node of the first loop: every distinct node so far holds 0 |
| ContactGraphs.ZeroInDegrees | src/AssemblyChain/Geometry/Contact/ContactGraphBuilder.cs:66-67 | after the first loop every distinct node holds 0, in order |
| ContactGraphs.CountEdge | src/AssemblyChain/Geometry/Contact/ContactGraphBuilder.cs:68-74 | one edge raises its target's entry by one when it is a key, and changes nothing else |
| ContactGraphs.CalculateInDegrees | src/AssemblyChain/Geometry/Contact/ContactGraphBuilder.cs:64-76 | the dictionary is the specified in-degree table of the graph |
| ContactGraphs.InDegreesFacts | src/AssemblyChain/Geometry/Contact/ContactGraphBuilder.cs:64-76 | the table is a valid graph model's: a part has an in-degree exactly when it is a node, and the in-degree is the number of edges ending at it (0 for other parts) |
| ContactGraphs.AnyFrom | src/AssemblyChain/Geometry/Contact/ContactGraphBuilder.cs:86 | true exactly when some edge starts at the node |
| ContactGraphs.ComponentsOf | src/AssemblyChain/Geometry/Contact/ContactGraphBuilder.cs:78-91 | one component per node, in node order, holding just that node |
| ContactGraphs.FindStronglyConnectedComponents | src/AssemblyChain/Geometry/Contact/ContactGraphBuilder.cs:78-91 | the list is the specified one-component-per-node list |
| ContactGraphs.ComponentOfNode | src/AssemblyChain/Geometry/Contact/ContactGraphBuilder.cs:78-91 | a node's component is its own singleton; a part that is no node has none |
| ContactGraphs.OptionsTextInjective | src/AssemblyChain/Geometry/Contact/ContactGraphBuilder.cs:41 | the two option flags are recovered from their rendering |
| ContactGraphs.GraphHashSeparatesOptions | src/AssemblyChain/Geometry/Contact/ContactGraphBuilder.cs:41 | two option sets give the same hash of one contact model only when they are equal |
| ContactGraphs.BuildGraph | src/AssemblyChain/Geometry/Contact/ContactGraphBuilder.cs:19-51 | the model holds the placeholder graph of the contact nodes with no edges, its in-degree table, its components, no blocking edges and the hash "graph_{hash}_{UseDirected}_{OnlyBlocking}" |
| ContactGraphs.PlaceholderGraphFacts | src/AssemblyChain/Geometry/Contact/ContactGraphBuilder.cs:19-91 | its nodes are exactly the mentioned parts; every in-degree is 0; a part has an in-degree and a singleton component without outgoing edges exactly when it is mentioned |
| ConstraintGraphs.BlockersOfIff | src/AssemblyChain.Graphs/Graph/ConstraintGraphBuilder.cs:122-131 | a part is collected exactly when it starts an edge that ends inside the group and it is not in the group |
| ConstraintGraphs.CheckExternalBlocking | src/AssemblyChain.Graphs/Graph/ConstraintGraphBuilder.cs:120-134 | the result is the specified blocker list: strictly ascending and holding exactly the parts outside the group with an edge into it |
| ConstraintGraphs.AllParts | src/AssemblyChain.Graphs/Graph/ConstraintGraphBuilder.cs:45 | each part once, and exactly the graph's nodes and the parts with motion rays |
| ConstraintGraphs.PartEntries | src/AssemblyChain.Graphs/Graph/ConstraintGraphBuilder.cs:47-67 | one entry per part |
| ConstraintGraphs.PartEntriesAt | src/AssemblyChain.Graphs/Graph/ConstraintGraphBuilder.cs:47-67 | entry i is part i with that part's lines |
| ConstraintGraphs.PartLinesCount | src/AssemblyChain.Graphs/Graph/ConstraintGraphBuilder.cs:49-64 | each part has the in-degree line and the motion line, and a third exactly when it belongs to a component |
| ConstraintGraphs.PartConstraintLines | src/AssemblyChain.Graphs/Graph/ConstraintGraphBuilder.cs:49-64 | the lines of one part are its specified lines |
| ConstraintGraphs.BuildPartConstraints | src/AssemblyChain.Graphs/Graph/ConstraintGraphBuilder.cs:39-73 | the dictionary is the specified list of part entries |
| ConstraintGraphs.PartEntriesFacts | src/AssemblyChain.Graphs/Graph/ConstraintGraphBuilder.cs:39-73 | each key once; a part has an entry exactly when it is a node or has motion rays, and then the entry is its lines |
| ConstraintGraphs.ComponentIndex | src/AssemblyChain.Graphs/Graph/ConstraintGraphBuilder.cs:60 | the position found is a component of the graph |
| ConstraintGraphs.FirstComponentAt | src/AssemblyChain.Graphs/Graph/ConstraintGraphBuilder.cs:60 | the position found lies in the searched range |
| ConstraintGraphs.FirstComponentAtAgrees | src/AssemblyChain.Graphs/Graph/ConstraintGraphBuilder.cs:60 | the position found names the first component holding the node |
| ConstraintGraphs.ComponentIndexAgrees | src/AssemblyChain.Graphs/Graph/ConstraintGraphBuilder.cs:60 | the position names the component GetComponentForNode returns, and there is none exactly when there is no position |
| ConstraintGraphs.ComponentIndices | src/AssemblyChain.Graphs/Graph/ConstraintGraphBuilder.cs:89 | every position names a component of the graph |
| ConstraintGraphs.ComponentIndicesIff | src/AssemblyChain.Graphs/Graph/ConstraintGraphBuilder.cs:89 | a component is listed exactly when some part of the group belongs to it |
| ConstraintGraphs.SingleComponentIff | src/AssemblyChain.Graphs/Graph/ConstraintGraphBuilder.cs:89-90 | the distinct components number exactly one when some part has a component and all parts that have one share it |
| ConstraintGraphs.SccLines | src/AssemblyChain.Graphs/Graph/ConstraintGraphBuilder.cs:88-98 | at most the component line and the outgoing-edges line |
| ConstraintGraphs.GroupSccLines | src/AssemblyChain.Graphs/Graph/ConstraintGraphBuilder.cs:88-98 | the component lines of a group are its specified ones |
| ConstraintGraphs.GroupConstraintLines | src/AssemblyChain.Graphs/Graph/ConstraintGraphBuilder.cs:83-109 | the lines of one group are its specified lines |
| ConstraintGraphs.BuildGroupConstraints | src/AssemblyChain.Graphs/Graph/ConstraintGraphBuilder.cs:75-118 | the result is the specified group entries over every group key, or the first malformed key's error |
| ConstraintGraphs.PrefixFails | src/AssemblyChain.Graphs/Graph/ConstraintGraphBuilder.cs:81-112 | the first failing key decides the failure of the whole loop |
| ConstraintGraphs.GroupLinesHaveRays | src/AssemblyChain.Graphs/Graph/ConstraintGraphBuilder.cs:101-102 | the group's motion line is always among its lines |
| ConstraintGraphs.GroupLinesOpenWithScc | src/AssemblyChain.Graphs/Graph/ConstraintGraphBuilder.cs:88-98 | a group's lines open with the component line exactly when its parts lie in one component |
| ConstraintGraphs.GroupLinesCloseWithBlocking | src/AssemblyChain.Graphs/Graph/ConstraintGraphBuilder.cs:104-109 | a group's lines close with the blocking line exactly when some outside part blocks the group |
| ConstraintGraphs.BuildConstraints | src/AssemblyChain.Graphs/Graph/ConstraintGraphBuilder.cs:17-37 | an error exactly when a group key fails to parse; otherwise the model of both inputs, both dictionaries and the hash "constraint_{graph}_{motion}" |
| ConstraintGraphs.BuiltPartConstraints | src/AssemblyChain.Graphs/Graph/ConstraintGraphBuilder.cs:39-73 | the built model answers a part query with the part's lines when it is a node or has motion rays, and with nothing otherwise |
| DependencyGraphs.TopoEdgesForward | src/AssemblyChain.Planning/Solver/Backends/OrToolsBackend.cs:581-599 | in a topological order every edge points forward |
| DependencyGraphs.PlacementSnoc | src/AssemblyChain.Planning/Solver/Backends/OrToolsBackend.cs:582-587 | placing the smallest ready node keeps the placement invariant |
| DependencyGraphs.GreedyIsLeast | src/AssemblyChain.Planning/Solver/Backends/OrToolsBackend.cs:572-599 | an order that always takes the smallest ready node is lexicographically below every topological order |
| DependencyGraphs.TopoOrdersSameLength | src/AssemblyChain.Planning/Solver/Backends/OrToolsBackend.cs:601 | all topological orders of a graph have the same length |
| DependencyGraphs.LeastUnique | src/AssemblyChain.Planning/Solver/Backends/OrToolsBackend.cs:572-599 | the smallest topological order, when there is one, is unique |
| DependencyGraphs.NoTopoOrder | src/AssemblyChain.Planning/Solver/Backends/OrToolsBackend.cs:582-604 | when no node is ready and some node is unplaced there is no topological order, so the cycle exception is right |
| DependencyGraphs.FirstUnplacedReady | src/AssemblyChain.Planning/Solver/Backends/OrToolsBackend.cs:582-599 | the first node of a topological order not yet placed is ready |
| DependencyGraphs.ReadySet | src/AssemblyChain.Planning/Solver/Backends/OrToolsBackend.cs:572-579 | exactly the nodes ready after the prefix |
| DependencyGraphs.LeastExists | src/AssemblyChain.Planning/Solver/Backends/OrToolsBackend.cs:572-599 | a graph with a topological order has a smallest one |
| DependencyGraphs.GreedyTurn | src/AssemblyChain.Planning/Solver/Backends/OrToolsBackend.cs:582-587 | placing the smallest ready node keeps the placement and leaves one node fewer |
| DependencyGraphs.GreedyStopIsLeast | src/AssemblyChain.Planning/Solver/Backends/OrToolsBackend.cs:582-601 | a greedy placement with nothing left ready is the smallest topological order, when there is one |
| DependencyGraphs.LeastTopoOrder | src/AssemblyChain.Planning/Solver/Backends/OrToolsBackend.cs:559-610 | the order computed for an acyclic graph is its smallest topological order |
| DependencyGraphs.InCountAny | src/AssemblyChain.Planning/Solver/Backends/OrToolsBackend.cs:562-570 | the in-degree count does not depend on which part is counted first |
| DependencyGraphs.InCountIsSize | src/AssemblyChain.Planning/Solver/Backends/OrToolsBackend.cs:562-570 | the count is the number of parts of the set with an edge into the node |
| DependencyGraphs.InCountZero | src/AssemblyChain.Planning/Solver/Backends/OrToolsBackend.cs:575 | the count is zero exactly when no part of the set has an edge into the node |
| DependencyGraphs.TargetsOfAll | src/AssemblyChain.Planning/Solver/Backends/OrToolsBackend.cs:562-570 | the targets of all keys are all edge targets |
| DependencyGraphs.InDegrees | src/AssemblyChain.Planning/Solver/Backends/OrToolsBackend.cs:561-570 | every key and every target gets an entry, and only those, holding the number of neighbour sets that contain it |
| DependencyGraphs.InDegreesArePredCounts | src/AssemblyChain.Planning/Solver/Backends/OrToolsBackend.cs:561-570 | the table holds every node's number of predecessors |
| DependencyGraphs.CountNeighbours | src/AssemblyChain.Planning/Solver/Backends/OrToolsBackend.cs:564-569 | one outer pass adds an entry for the node and one to each neighbour |
| DependencyGraphs.Increment | src/AssemblyChain.Planning/Solver/Backends/OrToolsBackend.cs:567-568 | TryAdd then increment: the entry exists afterwards and is one higher, the rest unchanged |
| DependencyGraphs.CountsAfter | src/AssemblyChain.Planning/Solver/Backends/OrToolsBackend.cs:562-570 | one more outer pass keeps the counts of the keys done so far |
| DependencyGraphs.PendingZero | src/AssemblyChain.Planning/Solver/Backends/OrToolsBackend.cs:593 | a node's remaining count is zero exactly when all its predecessors are placed |
| DependencyGraphs.KahnInit | src/AssemblyChain.Planning/Solver/Backends/OrToolsBackend.cs:572-579 | the nodes of in-degree zero are exactly the nodes ready at the start |
| DependencyGraphs.Kahn | src/AssemblyChain.Planning/Solver/Backends/OrToolsBackend.cs:582-599 | the loop ends with a greedy placement, nothing ready, and the order as long as the table exactly when every node is placed |
| DependencyGraphs.KahnTurn | src/AssemblyChain.Planning/Solver/Backends/OrToolsBackend.cs:584-598 | one turn keeps the loop invariant and appends the smallest available node to the order |
| DependencyGraphs.KahnDone | src/AssemblyChain.Planning/Solver/Backends/OrToolsBackend.cs:582-601 | once nothing is available, the order is complete exactly when its length is the node count |
| DependencyGraphs.KahnStep | src/AssemblyChain.Planning/Solver/Backends/OrToolsBackend.cs:584-598 | one turn keeps the counts and the available set in step with the placed nodes |
| DependencyGraphs.KahnStepCounts | src/AssemblyChain.Planning/Solver/Backends/OrToolsBackend.cs:588-598 | after the decrements each count is the number of unplaced predecessors |
| DependencyGraphs.KahnStepAvailable | src/AssemblyChain.Planning/Solver/Backends/OrToolsBackend.cs:588-598 | after the decrements the available set is exactly the ready nodes |
| DependencyGraphs.Release | src/AssemblyChain.Planning/Solver/Backends/OrToolsBackend.cs:588-598 | each neighbour's count falls by one, the keys stay, and a neighbour becomes available exactly when its count reaches zero |
| DependencyGraphs.TopologicalOrder | src/AssemblyChain.Planning/Solver/Backends/OrToolsBackend.cs:559-605 | an order exactly when the graph has a topological order (otherwise the cycle case), and then the smallest one |
| DependencyGraphs.Filter | src/AssemblyChain.Planning/Solver/Backends/OrToolsBackend.cs:612-626 | the result is the specified restriction of the graph to the subset |
| DependencyGraphs.FilterEdges | src/AssemblyChain.Planning/Solver/Backends/OrToolsBackend.cs:612-626 | the subgraph's edges are exactly the graph's edges with both ends in the subset, and its nodes lie in the subset |
| DependencyGraphs.SumSizesAny | src/AssemblyChain.Planning/Solver/Backends/OrToolsBackend.cs:606 | the edge sum does not depend on which key is counted first |
| DependencyGraphs.EdgeCount | src/AssemblyChain.Planning/Solver/Backends/OrToolsBackend.cs:606 | AppliedConstraintCount is the sum of the neighbour-set sizes |
| Meshes.Indices | src/AssemblyChain/Geometry/Toolkit/Mesh/Preprocessing/MeshRepair.cs:357-368 | four indices for a quad, three for a triangle, starting A, B, C |
| Meshes.IntToStringInjective | src/AssemblyChain/Geometry/Toolkit/Mesh/Preprocessing/MeshRepair.cs:361-367 | decimal text determines the integer it was written from |
| Meshes.IntToStringNoComma | src/AssemblyChain/Geometry/Toolkit/Mesh/Preprocessing/MeshRepair.cs:361-367 | a decimal number never contains the separator "," |
| Meshes.JoinNumbersInjective | src/AssemblyChain/Geometry/Toolkit/Mesh/Preprocessing/MeshRepair.cs:361-367 | joining decimal numbers with "," loses nothing: equal texts come from equal lists |
| Meshes.SignatureIff | src/AssemblyChain/Geometry/Toolkit/Mesh/Preprocessing/MeshRepair.cs:355-369 | two faces share a sorted signature exactly when they use the same multiset of vertex indices |
| Meshes.SignatureSeparatesShapes | src/AssemblyChain/Geometry/Toolkit/Mesh/Preprocessing/MeshRepair.cs:355-369 | a triangle never shares a signature with a quad |
| Meshes.OrderedSignatureIff | src/AssemblyChain/Geometry/Toolkit/Mesh/Preprocessing/MeshValidator.cs:326 | the validator's signature is equal exactly when the faces list the same indices in the same order |
| Meshes.ReorderedTriangle | src/AssemblyChain/Geometry/Toolkit/Mesh/Preprocessing/MeshValidator.cs:326 | reordering a triangle's indices keeps the repair signature but changes the validator's |
| Meshes.LaterDuplicates | src/AssemblyChain/Geometry/Toolkit/Mesh/Preprocessing/MeshRepair.cs:164-180 | the positions reported are in range and strictly ascending |
| Meshes.LaterDuplicatesIff | src/AssemblyChain/Geometry/Toolkit/Mesh/Preprocessing/MeshRepair.cs:167-180 | a face is reported exactly when an earlier face has its signature |
| Meshes.SigSetIff | src/AssemblyChain/Geometry/Toolkit/Mesh/Preprocessing/MeshRepair.cs:164-180 | the dictionary's keys are exactly the signatures of the faces seen |
| Meshes.FirstOfEachSignatures | src/AssemblyChain/Geometry/Toolkit/Mesh/Preprocessing/MeshRepair.cs:164-187 | the surviving faces' signatures are the distinct signatures in first-seen order |
| Meshes.FirstOfEachCount | src/AssemblyChain/Geometry/Toolkit/Mesh/Preprocessing/MeshRepair.cs:164-189 | every face is either kept or counted as removed |
| Meshes.KeepNone | src/AssemblyChain/Geometry/Toolkit/Mesh/Preprocessing/MeshRepair.cs:184-187 | removing no position in range keeps every face |
| Meshes.KeepStep | src/AssemblyChain/Geometry/Toolkit/Mesh/Preprocessing/MeshRepair.cs:184-187 | removing a position below all those already removed drops exactly that face from the survivors |
| Meshes.KeepLaterDuplicates | src/AssemblyChain/Geometry/Toolkit/Mesh/Preprocessing/MeshRepair.cs:164-187 | removing every later duplicate leaves the first face of each signature |
| Meshes.Reversed | src/AssemblyChain/Geometry/Toolkit/Mesh/Preprocessing/MeshRepair.cs:183 | the list read back to front |
| Meshes.SortDescendingIncreasing | src/AssemblyChain/Geometry/Toolkit/Mesh/Preprocessing/MeshRepair.cs:183 | sorting an ascending list of distinct positions largest-first reverses it: strictly descending, same positions |
| Meshes.RepairResult.constructor | src/AssemblyChain/Geometry/Toolkit/Mesh/Preprocessing/MeshRepair.cs:29-38 | a new result is unsuccessful, with all counts zero and no warnings and no errors |
| Meshes.FindLaterDuplicates | src/AssemblyChain/Geometry/Toolkit/Mesh/Preprocessing/MeshRepair.cs:164-180 | the scan reports exactly the specified later duplicates |
| Meshes.RemoveFacesAt | src/AssemblyChain/Geometry/Toolkit/Mesh/Preprocessing/MeshRepair.cs:184-187 | removing positions largest first leaves exactly the faces at the other positions, in order |
| Meshes.RemoveInOrder | src/AssemblyChain/Geometry/Toolkit/Mesh/Preprocessing/MeshRepair.cs:183-187 | sorting then removing leaves the first face of each signature |
| Meshes.RemoveDuplicatesFacts | src/AssemblyChain/Geometry/Toolkit/Mesh/Preprocessing/MeshRepair.cs:160-199 | after the pass no two faces share a signature, the survivors keep their order, the count is the number of repeated signatures, it is positive exactly when the mesh shrank, and errors and holes are untouched |
| Meshes.RemoveDuplicateFaces | src/AssemblyChain/Geometry/Toolkit/Mesh/Preprocessing/MeshRepair.cs:160-199 | the new mesh and result are the specified duplicate-removal stage of the old ones |
| Meshes.FixNonManifoldEdges | src/AssemblyChain/Geometry/Toolkit/Mesh/Preprocessing/MeshRepair.cs:137-158 | the pass returns at once: mesh and result unchanged |
| Meshes.HealNakedEdges | src/AssemblyChain/Geometry/Toolkit/Mesh/Preprocessing/MeshRepair.cs:201-206 | one warning added and nothing else changed |
| Meshes.Fan | src/AssemblyChain/Geometry/Toolkit/Mesh/Preprocessing/MeshRepair.cs:262-268 | loop length minus two triangles for a loop of at least two entries |
| Meshes.FanFacts | src/AssemblyChain/Geometry/Toolkit/Mesh/Preprocessing/MeshRepair.cs:264-267 | fan triangle k is the triangle (loop[0], loop[k+1], loop[k+2]) and uses only loop vertices |
| MeshRepair.Traced | src/AssemblyChain/Geometry/Toolkit/Mesh/Preprocessing/MeshRepair.cs:296-312 | the traced loop keeps one point per non-negative vertex index, in order, and no more points than the polyline had |
| MeshRepair.ExtractedLoopsFacts | src/AssemblyChain/Geometry/Toolkit/Mesh/Preprocessing/MeshRepair.cs:280-321 | at most one loop per polyline, each with at least three non-negative vertex indices and as many points |
| MeshRepair.TraceLoop | src/AssemblyChain/Geometry/Toolkit/Mesh/Preprocessing/MeshRepair.cs:296-312 | the inner loop over the first Count (Count - 1 when closed) points gives the specified traced loop |
| MeshRepair.ExtractLoopsFromNakedEdges | src/AssemblyChain/Geometry/Toolkit/Mesh/Preprocessing/MeshRepair.cs:280-321 | no loops for a null array; otherwise the specified loops of the usable polylines, in order |
| MeshRepair.HoleFacesFacts | src/AssemblyChain/Geometry/Toolkit/Mesh/Preprocessing/MeshRepair.cs:254-268 | a triangle for three indices, one quad on the first indices for four, and the fan (loop[0], loop[k+1], loop[k+2]) for more; every face uses only loop vertices |
| MeshRepair.TryFillHole | src/AssemblyChain/Geometry/Toolkit/Mesh/Preprocessing/MeshRepair.cs:245-278 | succeeds exactly for a present loop of at least three indices, and then appends exactly the hole faces; otherwise adds nothing |
| MeshRepair.AddFan | src/AssemblyChain/Geometry/Toolkit/Mesh/Preprocessing/MeshRepair.cs:264-267 | the faces appended are the fan of the loop |
| MeshRepair.FillAccounting | src/AssemblyChain/Geometry/Toolkit/Mesh/Preprocessing/MeshRepair.cs:100-123 | every loop is either filled or skipped with one warning; faces are added exactly when some hole is filled |
| MeshRepair.FillStageFacts | src/AssemblyChain/Geometry/Toolkit/Mesh/Preprocessing/MeshRepair.cs:85-135 | hole filling only appends faces, keeps the errors, never lowers the count, adds faces exactly when it fills a hole, and on a closed mesh only adds the closed-mesh warning |
| MeshRepair.FillMeshHoles | src/AssemblyChain/Geometry/Toolkit/Mesh/Preprocessing/MeshRepair.cs:85-135 | the new mesh and result are the specified fill stage of the old ones |
| MeshRepair.FillStageAfterLoops | src/AssemblyChain/Geometry/Toolkit/Mesh/Preprocessing/MeshRepair.cs:98-129 | with naked edges, the stage is the loop over the extracted loops followed by the summary warning exactly when faces were added |
| MeshRepair.AfterLoopsSnoc | src/AssemblyChain/Geometry/Toolkit/Mesh/Preprocessing/MeshRepair.cs:100-123 | one more loop continues from the state the loops before it left |
| MeshRepair.OneLoop | src/AssemblyChain/Geometry/Toolkit/Mesh/Preprocessing/MeshRepair.cs:102-122 | a single loop adds its hole faces and one to the count when it is fillable, and its skip warning otherwise |
| MeshRepair.FillLoops | src/AssemblyChain/Geometry/Toolkit/Mesh/Preprocessing/MeshRepair.cs:100-123 | the loop leaves the specified state after all loops |
| MeshRepair.FillOneLoop | src/AssemblyChain/Geometry/Toolkit/Mesh/Preprocessing/MeshRepair.cs:102-122 | one turn leaves the specified state after that loop |
| MeshRepair.RepairMesh | src/AssemblyChain/Geometry/Toolkit/Mesh/Preprocessing/MeshRepair.cs:43-83 | a fresh result, and mesh and result are the specified outcome of the enabled stages in order |
| MeshRepair.RepairSucceeds | src/AssemblyChain/Geometry/Toolkit/Mesh/Preprocessing/MeshRepair.cs:43-83 | the repair always succeeds with no errors and nothing counted as fixed or healed; a disabled stage counts nothing, and with both fill and removal off the faces are unchanged |
| MeshRepair.RepairStageEffects | src/AssemblyChain/Geometry/Toolkit/Mesh/Preprocessing/MeshRepair.cs:43-83 | an enabled removal leaves faces of pairwise different signatures; an enabled healing leaves its warning last |
| MeshRepair.DefaultRepair | src/AssemblyChain/Geometry/Toolkit/Mesh/Preprocessing/MeshRepair.cs:15-24 | with default options the holes are filled without a size limit, the duplicates removed, and healing is off |
| GeometryMeshRepair.CountBelowIsCard | src/AssemblyChain.Geometry/Toolkit/Mesh/Preprocessing/MeshRepair.cs:232-280 | the count of copies below a bound is the size of their set |
| GeometryMeshRepair.CopyCountIsCard | src/AssemblyChain.Geometry/Toolkit/Mesh/Preprocessing/MeshRepair.cs:232-280 | the count of copies is the size of their set |
| GeometryMeshRepair.CopiesBelowMembers | src/AssemblyChain.Geometry/Toolkit/Mesh/Preprocessing/MeshRepair.cs:232-280 | the copies below a bound are exactly the unprocessed even positions below it whose edge links the seed's two ends |
| GeometryMeshRepair.CopiesMembers | src/AssemblyChain.Geometry/Toolkit/Mesh/Preprocessing/MeshRepair.cs:232-280 | the copies are exactly the unprocessed even positions whose edge links the seed's two ends |
| GeometryMeshRepair.Repeat | src/AssemblyChain.Geometry/Toolkit/Mesh/Preprocessing/MeshRepair.cs:221-280 | the pair repeated c times has length 2c |
| GeometryMeshRepair.RepeatAt | src/AssemblyChain.Geometry/Toolkit/Mesh/Preprocessing/MeshRepair.cs:221-280 | even entries are the first end, odd entries the second |
| GeometryMeshRepair.RepeatEnds | src/AssemblyChain.Geometry/Toolkit/Mesh/Preprocessing/MeshRepair.cs:240-270 | the repeated pair starts with the first end and ends with the second |
| GeometryMeshRepair.TracksMark | src/AssemblyChain.Geometry/Toolkit/Mesh/Preprocessing/MeshRepair.cs:245-246 | marking an edge processed marks its even position and the odd one after it |
| GeometryMeshRepair.ExtendOnce | src/AssemblyChain.Geometry/Toolkit/Mesh/Preprocessing/MeshRepair.cs:229-280 | either the first unprocessed edge linking the loop's ends is put in front and marked, or no unprocessed edge links them and nothing changes |
| GeometryMeshRepair.GrowOnce | src/AssemblyChain.Geometry/Toolkit/Mesh/Preprocessing/MeshRepair.cs:227-281 | one turn of the while loop prepends one unprocessed copy of the seed edge and marks it processed, or finds that none is left and changes nothing |
| GeometryMeshRepair.GrowRepeat | src/AssemblyChain.Geometry/Toolkit/Mesh/Preprocessing/MeshRepair.cs:243-244 | one more copy puts the pair once more in front |
| GeometryMeshRepair.CopyFound | src/AssemblyChain.Geometry/Toolkit/Mesh/Preprocessing/MeshRepair.cs:240-248 | a found copy is new, a copy of the seed, and leaves one fewer to find |
| GeometryMeshRepair.NoCopyLeft | src/AssemblyChain.Geometry/Toolkit/Mesh/Preprocessing/MeshRepair.cs:227-281 | when no unprocessed edge links the ends, every copy has been taken |
| GeometryMeshRepair.GrowLoop | src/AssemblyChain.Geometry/Toolkit/Mesh/Preprocessing/MeshRepair.cs:221-281 | the seed's loop is its edge repeated once per copy plus once, and exactly the seed and its copies become processed, the seed's two indices included |
| GeometryMeshRepair.GroupAccIs | src/AssemblyChain.Geometry/Toolkit/Mesh/Preprocessing/MeshRepair.cs:214-289 | accumulating loops appends the loops from the seed position on |
| GeometryMeshRepair.SeedTurn | src/AssemblyChain.Geometry/Toolkit/Mesh/Preprocessing/MeshRepair.cs:219-286 | one outer turn keeps the processed set in step and continues the specified grouping; a processed seed changes nothing, an unprocessed one adds at most one loop after the earlier ones and grows the processed set |
| GeometryMeshRepair.GroupNakedEdgesIntoLoops | src/AssemblyChain.Geometry/Toolkit/Mesh/Preprocessing/MeshRepair.cs:212-290 | the result is the specified grouping of the edge array |
| GeometryMeshRepair.EvenStep | src/AssemblyChain.Geometry/Toolkit/Mesh/Preprocessing/MeshRepair.cs:217-221 | the seed position stays even and its pair is inside an even-length array |
| GeometryMeshRepair.GroupFromShape | src/AssemblyChain.Geometry/Toolkit/Mesh/Preprocessing/MeshRepair.cs:212-290 | every loop kept is one edge repeated |
| GeometryMeshRepair.SeedShape | src/AssemblyChain.Geometry/Toolkit/Mesh/Preprocessing/MeshRepair.cs:221-286 | the seed's loop, when kept, is its edge repeated |
| GeometryMeshRepair.RepeatShape | src/AssemblyChain.Geometry/Toolkit/Mesh/Preprocessing/MeshRepair.cs:283-286 | a pair repeated at least twice is a repeated edge of the array |
| GeometryMeshRepair.TotalLengthConcat | src/AssemblyChain.Geometry/Toolkit/Mesh/Preprocessing/MeshRepair.cs:285 | the total length of joined loop lists adds up |
| GeometryMeshRepair.GroupFromUsesEachEdgeOnce | src/AssemblyChain.Geometry/Toolkit/Mesh/Preprocessing/MeshRepair.cs:212-290 | each edge pair is used by at most one loop |
| GeometryMeshRepair.SeedLength | src/AssemblyChain.Geometry/Toolkit/Mesh/Preprocessing/MeshRepair.cs:283-286 | the seed adds at most two entries per copy plus two |
| GeometryMeshRepair.SeedUsesCopies | src/AssemblyChain.Geometry/Toolkit/Mesh/Preprocessing/MeshRepair.cs:222-223 | a seed and its copies leave the available edges together |
| GeometryMeshRepair.GroupedLoopsFacts | src/AssemblyChain.Geometry/Toolkit/Mesh/Preprocessing/MeshRepair.cs:212-290 | an odd-length array fails on nakedEdges[i + 1]; otherwise every loop is one edge repeated and the loops hold no more entries than the array |
| GeometryMeshRepair.AvailableBound | src/AssemblyChain.Geometry/Toolkit/Mesh/Preprocessing/MeshRepair.cs:217 | an even-length array has at most half as many edges as entries |
| GeometryMeshRepair.DistinctEdgesGiveNoLoops | src/AssemblyChain.Geometry/Toolkit/Mesh/Preprocessing/MeshRepair.cs:212-290 | when no edge is listed twice, in either direction, no loop is kept |
| GeometryMeshRepair.NoCopiesOfDistinct | src/AssemblyChain.Geometry/Toolkit/Mesh/Preprocessing/MeshRepair.cs:232-280 | a seed whose edge is listed once has no copies |
| GeometryMeshRepair.TriangleBoundaryGivesNoLoop | src/AssemblyChain.Geometry/Toolkit/Mesh/Preprocessing/MeshRepair.cs:212-290 | a triangle's three boundary edges, each listed once, give no loop |
| GeometryMeshRepair.HoleFacesFacts | src/AssemblyChain.Geometry/Toolkit/Mesh/Preprocessing/MeshRepair.cs:322-351 | a triangle for four entries, a quad for six, otherwise the fan (loop[0], loop[k+1], loop[k+2]); every face uses only loop vertices |
| GeometryMeshRepair.GroupedLoopFacesUseOneEdge | src/AssemblyChain.Geometry/Toolkit/Mesh/Preprocessing/MeshRepair.cs:322-351 | filling a loop the grouping returns would only use the two vertices of its edge |
| GeometryMeshRepair.TryFillHole | src/AssemblyChain.Geometry/Toolkit/Mesh/Preprocessing/MeshRepair.cs:322-351 | a missing loop fails, adding nothing; any other loop gets its hole faces and succeeds |
| GeometryMeshRepair.AddFan | src/AssemblyChain.Geometry/Toolkit/Mesh/Preprocessing/MeshRepair.cs:340-343 | the faces appended are the fan of the loop |
| GeometryMeshRepair.FillStageFacts | src/AssemblyChain.Geometry/Toolkit/Mesh/Preprocessing/MeshRepair.cs:85-139 | hole filling never adds a face, counts a hole or records an error, and adds at most the closed-mesh warning |
| GeometryMeshRepair.FillMeshHoles | src/AssemblyChain.Geometry/Toolkit/Mesh/Preprocessing/MeshRepair.cs:85-139 | the new mesh and result are the specified fill stage of the old ones |
| GeometryMeshRepair.RepairMesh | src/AssemblyChain.Geometry/Toolkit/Mesh/Preprocessing/MeshRepair.cs:43-83 | a fresh result, and mesh and result are the specified outcome of the enabled stages in order |
| GeometryMeshRepair.RepairOutcomeFacts | src/AssemblyChain.Geometry/Toolkit/Mesh/Preprocessing/MeshRepair.cs:43-83 | the repair succeeds with no errors and no hole filled; the faces are the first of each signature when removal is on, and unchanged otherwise |
| MeshValidation.ValidationResult.constructor | src/AssemblyChain/Geometry/Toolkit/Mesh/Preprocessing/MeshValidator.cs:28-48 | a new result is valid with no warnings, errors or degenerate faces, the given face count, and neither normals nor box marked valid |
| MeshValidation.FindDuplicateFaces | src/AssemblyChain/Geometry/Toolkit/Mesh/Preprocessing/MeshValidator.cs:318-339 | the indices reported are exactly the specified later duplicates under the ordered signature |
| MeshValidation.DuplicateFacesIff | src/AssemblyChain/Geometry/Toolkit/Mesh/Preprocessing/MeshValidator.cs:318-339 | a face is reported exactly when an earlier face lists the same indices in the same order; the indices ascend |
| MeshValidation.CheckTopology | src/AssemblyChain/Geometry/Toolkit/Mesh/Preprocessing/MeshValidator.cs:125-152 | the new report is the specified topology stage: the naked-edge warning and the duplicate-faces error |
| MeshValidation.CheckCount | src/AssemblyChain/Geometry/Toolkit/Mesh/Preprocessing/MeshValidator.cs:161 | the sample never exceeds the face count; meshes of up to 1000 faces are checked whole, larger ones at least 1000 faces, and from 10000 faces a tenth |
| MeshValidation.SampleDegenerate | src/AssemblyChain/Geometry/Toolkit/Mesh/Preprocessing/MeshValidator.cs:163-169 | no more degenerate faces than faces sampled |
| MeshValidation.SampleDegenerateIs | src/AssemblyChain/Geometry/Toolkit/Mesh/Preprocessing/MeshValidator.cs:163-169 | the count is the number of degenerate faces among the first checkCount |
| MeshValidation.DegeneratePercentageIs | src/AssemblyChain/Geometry/Toolkit/Mesh/Preprocessing/MeshValidator.cs:172-175 | the extrapolated percentage is 100 * count / checkCount, and it exceeds the threshold exactly when 100 * count > threshold * checkCount |
| MeshValidation.CountDegenerate | src/AssemblyChain/Geometry/Toolkit/Mesh/Preprocessing/MeshValidator.cs:158-169 | the count is reset and then holds the degenerate faces of the sample; nothing else changes |
| MeshValidation.CheckDegenerateFaces | src/AssemblyChain/Geometry/Toolkit/Mesh/Preprocessing/MeshValidator.cs:154-189 | the new report is the specified degenerate-face stage |
| MeshValidation.NormalsFacts | src/AssemblyChain/Geometry/Toolkit/Mesh/Preprocessing/MeshValidator.cs:191-236 | no normals: a warning and no error; a count mismatch: that error; otherwise normals are valid exactly when none is zero-length, exactly when no error is added |
| MeshValidation.CheckNormals | src/AssemblyChain/Geometry/Toolkit/Mesh/Preprocessing/MeshValidator.cs:191-236 | the new report is the specified normals stage |
| MeshValidation.CheckBoundingBox | src/AssemblyChain/Geometry/Toolkit/Mesh/Preprocessing/MeshValidator.cs:238-268 | the new report is the specified bounding-box stage |
| MeshValidation.ValidateMesh | src/AssemblyChain/Geometry/Toolkit/Mesh/Preprocessing/MeshValidator.cs:42-104 | the result is the specified validation with the default options when none are given |
| MeshValidation.FinalValidation | src/AssemblyChain/Geometry/Toolkit/Mesh/Preprocessing/MeshValidator.cs:109-113 | the same validation with a tolerance of 1e-3 when no options are given |
| MeshValidation.ValidateMeshForContactDetection | src/AssemblyChain/Geometry/Toolkit/Mesh/Preprocessing/MeshValidator.cs:118-123 | the verdict is true exactly when the validation has no errors; then no message, otherwise the errors joined by "; ", starting with the first |
| MeshValidation.JoinStartsWithFirst | src/AssemblyChain/Geometry/Toolkit/Mesh/Preprocessing/MeshValidator.cs:121 | a joined list starts with its first element |
| MeshValidation.PrecheckStops | src/AssemblyChain/Geometry/Toolkit/Mesh/Preprocessing/MeshValidator.cs:50-76 | a null, invalid, under-three-vertex or faceless mesh gets exactly that one error, is invalid, and no check runs |
| MeshValidation.ValidIffNoErrors | src/AssemblyChain/Geometry/Toolkit/Mesh/Preprocessing/MeshValidator.cs:102 | the mesh is valid exactly when no error was recorded |
| MeshValidation.TopologyErrors | src/AssemblyChain/Geometry/Toolkit/Mesh/Preprocessing/MeshValidator.cs:140-146 | the topology check adds at most one error, and none exactly when there is no duplicate face |
| MeshValidation.DegenerateErrors | src/AssemblyChain/Geometry/Toolkit/Mesh/Preprocessing/MeshValidator.cs:171-179 | the degenerate check adds at most one error, and none exactly when 100 * count <= threshold * checkCount |
| MeshValidation.NormalsErrors | src/AssemblyChain/Geometry/Toolkit/Mesh/Preprocessing/MeshValidator.cs:191-236 | the normals check adds at most one error, and none exactly when there are no normals or the right number, none zero-length |
| MeshValidation.BoundingBoxErrors | src/AssemblyChain/Geometry/Toolkit/Mesh/Preprocessing/MeshValidator.cs:238-268 | the box check adds at most one error, and none exactly when the box is valid and its diagonal reaches the tolerance |
| MeshValidation.LargerToleranceRejectsMore | src/AssemblyChain/Geometry/Toolkit/Mesh/Preprocessing/MeshValidator.cs:252 | a box that passes with a tolerance passes with any smaller one |
| MeshValidation.FinalToleranceIsStricter | src/AssemblyChain/Geometry/Toolkit/Mesh/Preprocessing/MeshValidator.cs:109-113 | a valid box with a diagonal in [1e-6, 1e-3) passes the default tolerance and fails the final one |
| MeshValidation.ValidIff | src/AssemblyChain/Geometry/Toolkit/Mesh/Preprocessing/MeshValidator.cs:42-104 | the mesh is valid exactly when it passes the prechecks and every enabled check finds nothing wrong |
| OrToolsSpec.IndexToPosition | src/AssemblyChain.Planning/Model/AssemblyModel.cs:75-80 | the position found holds the id and no later part does; none exactly when no part has the id |
| OrToolsSpec.LastPosition | src/AssemblyChain.Planning/Model/AssemblyModel.cs:75-80 | when ids repeat the dictionary keeps the last position: the result holds the id with none later, and is none exactly when the id is absent |
| OrToolsSpec.PartIds | src/AssemblyChain.Planning/Solver/Backends/OrToolsBackend.cs:274-278 | one id per part, in part order |
| OrToolsSpec.ParseImplication | src/AssemblyChain.Planning/Solver/Backends/OrToolsBackend.cs:332-353 | a parsed implication has the constraint's part as its source; every failure is a FormatException |
| OrToolsSpec.ClassifyConstraint | src/AssemblyChain.Planning/Solver/Backends/OrToolsBackend.cs:305-327 | a blank constraint has no effect; an implication is sourced at its part; failures are FormatExceptions |
| OrToolsSpec.AddEdge | src/AssemblyChain.Planning/Solver/Backends/OrToolsBackend.cs:744-759 | GetOrCreate(u).Add(v): the keys gain u and the edges gain exactly (u, v) |
| OrToolsSpec.InitialAdjacency | src/AssemblyChain.Planning/Solver/Backends/OrToolsBackend.cs:280-284 | one key per part id, each with no neighbours |
| OrToolsSpec.PositionIn | src/AssemblyChain.Planning/Solver/Backends/OrToolsBackend.cs:684-688 | the position found holds the element; none exactly when it is absent |
| OrToolsSpec.FirstViolation | src/AssemblyChain.Planning/Solver/Backends/OrToolsBackend.cs:677-704 | none exactly when no implication is violated; otherwise the first violated one |
| OrToolsSpec.FirstForbidden | src/AssemblyChain.Planning/Solver/Backends/OrToolsBackend.cs:706-715 | none exactly when no forbidden part is in the order; otherwise a forbidden part that is |
| OrToolsSpec.ParseLiteral | src/AssemblyChain.Planning/Solver/Backends/OrToolsBackend.cs:410-434 | the only error is "Invalid SAT literal" quoting the token |
| OrToolsSpec.ParseClause | src/AssemblyChain.Planning/Solver/Backends/OrToolsBackend.cs:406-441 | a clause that parses has at least one literal |
| OrToolsSpec.EncodedKeys | src/AssemblyChain.Planning/Solver/Backends/OrToolsBackend.cs:459 | key i is id i plus one, with 32-bit wrap-around |
| OrToolsSpec.FirstDuplicate | src/AssemblyChain.Planning/Solver/Backends/OrToolsBackend.cs:459 | none exactly when the keys are distinct, so ToDictionary throws exactly on a repeated key |
| OrToolsSpec.FirstFeasible | src/AssemblyChain.Planning/Solver/Backends/OrToolsBackend.cs:199-208 | the ray returned is a candidate and feasible; none exactly when no candidate is feasible |
| OrToolsSpec.SelectMotion | src/AssemblyChain.Planning/Solver/Backends/OrToolsBackend.cs:193-222 | a selected direction is feasible; the failure reason is "No feasible motion vector for part N." |
| OrToolsBackend.Diagnostics.constructor | src/AssemblyChain.Planning/Solver/Backends/OrToolsBackend.cs:653-663 | every counter zero, no implications, no forbidden parts, no log lines |
| OrToolsBackend.Diagnostics.Log | src/AssemblyChain.Planning/Solver/Backends/OrToolsBackend.cs:665 | the success text with no lines, the single line when there is one |
| OrToolsBackend.Diagnostics.LogSuccess | src/AssemblyChain.Planning/Solver/Backends/OrToolsBackend.cs:667-670 | appends "Generated N steps." and changes no counter |
| OrToolsBackend.Diagnostics.LogInfeasible | src/AssemblyChain.Planning/Solver/Backends/OrToolsBackend.cs:672-675 | appends "Part N infeasible: reason" and changes no counter |
| OrToolsBackend.Diagnostics.ValidateImplications | src/AssemblyChain.Planning/Solver/Backends/OrToolsBackend.cs:677-704 | the loop finds the specification's first violated implication, a Conflict |
| OrToolsBackend.Diagnostics.ValidateForbidden | src/AssemblyChain.Planning/Solver/Backends/OrToolsBackend.cs:706-715 | the loop finds the specification's forbidden part in the order, an Infeasible failure |
| OrToolsBackend.FirstViolationAt | src/AssemblyChain.Planning/Solver/Backends/OrToolsBackend.cs:690-702 | the first violated implication is the one reported |
| OrToolsBackend.FirstForbiddenAt | src/AssemblyChain.Planning/Solver/Backends/OrToolsBackend.cs:708-713 | the first forbidden part in the order is the one reported |
| OrToolsBackend.ConstraintsErrExtends | src/AssemblyChain.Planning/Solver/Backends/OrToolsBackend.cs:303-328 | a FormatException in a prefix of one part's constraints ends the whole pass with it |
| OrToolsBackend.DeclarativeErrExtends | src/AssemblyChain.Planning/Solver/Backends/OrToolsBackend.cs:301-329 | a FormatException in a prefix of the entries ends the whole pass with it |
| OrToolsBackend.ApplyDeclarativeConstraints | src/AssemblyChain.Planning/Solver/Backends/OrToolsBackend.cs:296-330 | the loops compute the specification's edges, dependency count, implications and forbidden parts, or its first FormatException; logs and other counters unchanged |
| OrToolsBackend.ApplyPartConstraints | src/AssemblyChain.Planning/Solver/Backends/OrToolsBackend.cs:303-328 | the inner loop over one part's constraints, as the specification defines it |
| OrToolsBackend.ApplyDirectiveTo | src/AssemblyChain.Planning/Solver/Backends/OrToolsBackend.cs:311-327 | one classified constraint's effect on the adjacency and the diagnostics |
| OrToolsBackend.CollectPartIds | src/AssemblyChain.Planning/Solver/Backends/OrToolsBackend.cs:274-278 | the set of part ids |
| OrToolsBackend.InitialAdjacencyOf | src/AssemblyChain.Planning/Solver/Backends/OrToolsBackend.cs:280-284 | the loop builds one empty neighbour set per part |
| OrToolsBackend.BuildDependencyGraph | src/AssemblyChain.Planning/Solver/Backends/OrToolsBackend.cs:269-294 | adjacency and diagnostics as the specification's dependency graph, or its failure |
| OrToolsBackend.ResolveOrder | src/AssemblyChain.Planning/Solver/Backends/OrToolsBackend.cs:559-610 | the specification's order or failure, and AppliedConstraintCount the total number of edges |
| OrToolsBackend.LiteralsErrExtends | src/AssemblyChain.Planning/Solver/Backends/OrToolsBackend.cs:408-434 | a bad literal in a prefix of the tokens fails the whole clause with it |
| OrToolsBackend.ClausesErrExtends | src/AssemblyChain.Planning/Solver/Backends/OrToolsBackend.cs:406-442 | a bad clause in a prefix fails the whole group with it |
| OrToolsBackend.ExtractErrExtends | src/AssemblyChain.Planning/Solver/Backends/OrToolsBackend.cs:400-443 | a bad clause in a prefix of the groups fails the extraction with it |
| OrToolsBackend.ParseClauseText | src/AssemblyChain.Planning/Solver/Backends/OrToolsBackend.cs:408-441 | the loop parses one clause as the specification does |
| OrToolsBackend.ExtractClausesOf | src/AssemblyChain.Planning/Solver/Backends/OrToolsBackend.cs:397-446 | the loops collect the clauses of every "sat" group, as the specification does |
| OrToolsBackend.SatisfiesClauses | src/AssemblyChain.Planning/Solver/Backends/OrToolsBackend.cs:505-538 | the loop decides exactly the specification's satisfaction |
| OrToolsBackend.FirstDuplicateExtends | src/AssemblyChain.Planning/Solver/Backends/OrToolsBackend.cs:459 | a repeated key in a prefix is the one reported for the whole sequence |
| OrToolsBackend.DecodeAdd | src/AssemblyChain.Planning/Solver/Backends/OrToolsBackend.cs:492-500 | decoding one more encoded id adds that id minus one |
| OrToolsBackend.MaskAssignment | src/AssemblyChain.Planning/Solver/Backends/OrToolsBackend.cs:466-473 | the inner loop builds the assignment of the mask's bits |
| OrToolsBackend.EncodeIds | src/AssemblyChain.Planning/Solver/Backends/OrToolsBackend.cs:459 | the first duplicate key, the ToDictionary failure, and a table mapping each key back to key minus one |
| OrToolsBackend.SearchAssignments | src/AssemblyChain.Planning/Solver/Backends/OrToolsBackend.cs:460-483 | the mask loop leaves the specification's search state for all 1 << n masks |
| OrToolsBackend.DecodeSelection | src/AssemblyChain.Planning/Solver/Backends/OrToolsBackend.cs:490-500 | the decode loop maps every encoded id back to its id |
| OrToolsBackend.SolveBooleanAssignment | src/AssemblyChain.Planning/Solver/Backends/OrToolsBackend.cs:448-503 | the specification's selection or failure, with BooleanSelections the size of the best assignment |
| OrToolsBackend.FirstFeasibleAt | src/AssemblyChain.Planning/Solver/Backends/OrToolsBackend.cs:200-208 | the first feasible ray is the one selected |
| OrToolsBackend.TrySelectMotionVector | src/AssemblyChain.Planning/Solver/Backends/OrToolsBackend.cs:193-222 | the loop and fallback select the specification's motion or its failure |
| OrToolsBackend.PlanErrExtends | src/AssemblyChain.Planning/Solver/Backends/OrToolsBackend.cs:159-187 | a failure at a prefix of the order ends planning with it |
| OrToolsBackend.BuildPlanSteps | src/AssemblyChain.Planning/Solver/Backends/OrToolsBackend.cs:148-191 | the specification's steps or failure, with the success or infeasible log line appended |
| OrToolsBackend.PlanLoop | src/AssemblyChain.Planning/Solver/Backends/OrToolsBackend.cs:159-187 | the step loop computes the specification's plan state or failure |
| OrToolsBackend.GroupsErrExtends | src/AssemblyChain.Planning/Solver/Backends/OrToolsBackend.cs:227-236 | a bad group key in a prefix ends extraction with it |
| OrToolsBackend.ExtractMotionGroups | src/AssemblyChain.Planning/Solver/Backends/OrToolsBackend.cs:224-239 | the groups of the specification, skipping keys with unselected parts |
| OrToolsBackend.BuildTopologicalOrder | src/AssemblyChain.Planning/Solver/Backends/OrToolsBackend.cs:260-267 | a fresh diagnostics object, and the specification's order or failure for the request's graph |
| OrToolsBackend.FinishPlan | src/AssemblyChain.Planning/Solver/Backends/OrToolsBackend.cs:74-86 | plan steps, groups and step count as the specification's finishing stage |
| OrToolsBackend.SolveCsp | src/AssemblyChain.Planning/Solver/Backends/OrToolsBackend.cs:66-87 | metadata and result of the specification's CSP path |
| OrToolsBackend.ResolveWeightedOrder | src/AssemblyChain.Planning/Solver/Backends/OrToolsBackend.cs:559-610 | the cycle Conflict when the graph has no topological order; otherwise the given weighted order after the implication and forbidden-part checks, with AppliedConstraintCount the number of edges |
| OrToolsBackend.SolveMilp | src/AssemblyChain.Planning/Solver/Backends/OrToolsBackend.cs:89-111 | metadata and result of the specification's MILP path, with the weighted order given and the cycle verdict computed |
| OrToolsBackend.SolveSat | src/AssemblyChain.Planning/Solver/Backends/OrToolsBackend.cs:113-146 | metadata and result of the specification's SAT path |
| OrToolsBackend.Solve | src/AssemblyChain.Planning/Solver/Backends/OrToolsBackend.cs:24-63 | the specification's answer, including the null request and the three catch blocks |
| OrToolsFacts.IntToStringShape | src/AssemblyChain.Planning/Solver/Backends/OrToolsBackend.cs:311-347 | a printed integer is digits with an optional minus, free of '>', ' ' and ',' |
| OrToolsFacts.SplitStringSkip | src/AssemblyChain.Planning/Solver/Backends/OrToolsBackend.cs:335 | text without the separator joins the current piece |
| OrToolsFacts.SplitArrow | src/AssemblyChain.Planning/Solver/Backends/OrToolsBackend.cs:335 | "x->y" splits into exactly x and y when neither holds '>' and x does not end in '-' |
| OrToolsFacts.ImplicationRoundTrip | src/AssemblyChain.Planning/Solver/Backends/OrToolsBackend.cs:332-353 | "implies:a->b" parses back to the implication (part, a, b) |
| OrToolsFacts.ImplicationMalformed | src/AssemblyChain.Planning/Solver/Backends/OrToolsBackend.cs:336-339 | without exactly two pieces the error is "Invalid implication constraint" quoting the definition |
| OrToolsFacts.TrimKeeps | src/AssemblyChain.Planning/Solver/Backends/OrToolsBackend.cs:310 | a constraint without surrounding white space is unchanged by Trim and not blank |
| OrToolsFacts.ClassifyRequires | src/AssemblyChain.Planning/Solver/Backends/OrToolsBackend.cs:311-319 | "requires:n" adds the dependency n |
| OrToolsFacts.ClassifyImpliesText | src/AssemblyChain.Planning/Solver/Backends/OrToolsBackend.cs:320-323 | an "implies:" constraint means exactly what ParseImplication says |
| OrToolsFacts.ClassifyImplies | src/AssemblyChain.Planning/Solver/Backends/OrToolsBackend.cs:320-323 | "implies:a->b" records the implication (part, a, b) |
| OrToolsFacts.ClassifyForbid | src/AssemblyChain.Planning/Solver/Backends/OrToolsBackend.cs:324-327 | "forbid", in any mix of ASCII upper and lower case, forbids the part |
| OrToolsFacts.GrowsTrans | src/AssemblyChain.Planning/Solver/Backends/OrToolsBackend.cs:296-330 | edges, implications and forbidden parts only accumulate, transitively |
| OrToolsFacts.DirectiveGrows | src/AssemblyChain.Planning/Solver/Backends/OrToolsBackend.cs:311-327 | one constraint only adds |
| OrToolsFacts.ConstraintsGrow | src/AssemblyChain.Planning/Solver/Backends/OrToolsBackend.cs:303-328 | one part's constraints only add |
| OrToolsFacts.DeclarativeGrows | src/AssemblyChain.Planning/Solver/Backends/OrToolsBackend.cs:301-329 | the whole pass only adds |
| OrToolsFacts.ConstraintTakesEffect | src/AssemblyChain.Planning/Solver/Backends/OrToolsBackend.cs:311-327 | each constraint of a part takes effect in the result |
| OrToolsFacts.DeclarativeTakesEffect | src/AssemblyChain.Planning/Solver/Backends/OrToolsBackend.cs:301-329 | each declared constraint takes effect in the result |
| OrToolsFacts.ConstraintEdgeSource | src/AssemblyChain.Planning/Solver/Backends/OrToolsBackend.cs:311-319 | every new edge of one part's pass comes from a "requires" of that part |
| OrToolsFacts.DeclarativeEdgeSource | src/AssemblyChain.Planning/Solver/Backends/OrToolsBackend.cs:311-319 | every new edge comes from some part's "requires" |
| OrToolsFacts.ConstraintsFail | src/AssemblyChain.Planning/Solver/Backends/OrToolsBackend.cs:320-323 | a malformed constraint fails the part's pass |
| OrToolsFacts.DeclarativeFails | src/AssemblyChain.Planning/Solver/Backends/OrToolsBackend.cs:320-323 | a malformed constraint anywhere fails the whole pass |
| OrToolsFacts.BlockingEdgesAdded | src/AssemblyChain.Planning/Solver/Backends/OrToolsBackend.cs:286-290 | the edges are the old ones plus the blocking edges, the keys gain their sources |
| OrToolsFacts.DependencyGraphEdges | src/AssemblyChain.Planning/Solver/Backends/OrToolsBackend.cs:269-294 | every part is a node, blocking edges are edges, and every edge is a blocking edge or a declared requirement |
| OrToolsFacts.ResolveOrderResult | src/AssemblyChain.Planning/Solver/Backends/OrToolsBackend.cs:559-610 | a cycle is a Conflict; otherwise success exactly when the smallest topological order violates no implication and holds no forbidden part, and then it is that order |
| OrToolsFacts.ResolveOrderViolation | src/AssemblyChain.Planning/Solver/Backends/OrToolsBackend.cs:607 | a violated implication makes the order a Conflict |
| OrToolsFacts.ValidatedImplication | src/AssemblyChain.Planning/Solver/Backends/OrToolsBackend.cs:699-702 | in an accepted order, source, trigger and target are never in strictly ascending positions |
| OrToolsFacts.PositionUnique | src/AssemblyChain.Planning/Solver/Backends/OrToolsBackend.cs:684-688 | in a distinct order the position table holds each element's own index |
| OrToolsFacts.PositiveToken | src/AssemblyChain.Planning/Solver/Backends/OrToolsBackend.cs:413-419 | "P" then t: t's value plus one, or nothing when t is not an integer |
| OrToolsFacts.NegativeToken | src/AssemblyChain.Planning/Solver/Backends/OrToolsBackend.cs:413-419 | "-P" then t: minus (t's value plus one), or nothing when t is not an integer |
| OrToolsFacts.PositiveLiteral | src/AssemblyChain.Planning/Solver/Backends/OrToolsBackend.cs:413-419 | "Pi" is the literal i + 1 |
| OrToolsFacts.PositiveIndex | src/AssemblyChain.Planning/Solver/Backends/OrToolsBackend.cs:413-419 | "P" then an integer text is that integer plus one |
| OrToolsFacts.NegativeLiteral | src/AssemblyChain.Planning/Solver/Backends/OrToolsBackend.cs:420-426 | "-Pi" is the literal -(i + 1) |
| OrToolsFacts.NegativeIndex | src/AssemblyChain.Planning/Solver/Backends/OrToolsBackend.cs:420-426 | "-P" then an integer text is minus that integer plus one |
| OrToolsFacts.RawLiteral | src/AssemblyChain.Planning/Solver/Backends/OrToolsBackend.cs:427-430 | a plain integer is its own literal |
| OrToolsFacts.ParseClausesNonEmpty | src/AssemblyChain.Planning/Solver/Backends/OrToolsBackend.cs:436-439 | every clause parsed has a literal |
| OrToolsFacts.ClausesNonEmpty | src/AssemblyChain.Planning/Solver/Backends/OrToolsBackend.cs:397-446 | every clause extracted has a literal, and without a "sat" group there are none |
| OrToolsFacts.SomeSatisfyingStep | src/AssemblyChain.Planning/Solver/Backends/OrToolsBackend.cs:464-483 | one more mask adds exactly its own assignment to the candidates |
| OrToolsFacts.SearchFound | src/AssemblyChain.Planning/Solver/Backends/OrToolsBackend.cs:476-478 | found exactly when some mask below the bound satisfies the clauses; the best is empty otherwise |
| OrToolsFacts.SearchLargest | src/AssemblyChain.Planning/Solver/Backends/OrToolsBackend.cs:479-482 | the best assignment is at least as large as every satisfying one below the bound |
| OrToolsFacts.SearchFirst | src/AssemblyChain.Planning/Solver/Backends/OrToolsBackend.cs:479-482 | the best assignment is some satisfying mask's, and every earlier satisfying mask gives a smaller one |
| OrToolsFacts.SearchFirstNew | src/AssemblyChain.Planning/Solver/Backends/OrToolsBackend.cs:479-482 | when the best changes at the last mask, that mask is the first of the new size |
| OrToolsFacts.ReplacedBest | src/AssemblyChain.Planning/Solver/Backends/OrToolsBackend.cs:479-482 | a replaced best is the last mask's assignment, satisfying and strictly larger |
| OrToolsFacts.NewBestFirst | src/AssemblyChain.Planning/Solver/Backends/OrToolsBackend.cs:479-482 | a strictly larger satisfying assignment is the first of its size |
| OrToolsFacts.FirstAtNew | src/AssemblyChain.Planning/Solver/Backends/OrToolsBackend.cs:479-482 | a satisfying assignment larger than every earlier one is the first of its size |
| OrToolsFacts.SearchCorrect | src/AssemblyChain.Planning/Solver/Backends/OrToolsBackend.cs:462-488 | the search finds exactly when some mask satisfies the clauses, and then keeps the first largest satisfying assignment |
| OrToolsFacts.EncodeDecode | src/AssemblyChain.Planning/Solver/Backends/OrToolsBackend.cs:459 | decoding an encoded 32-bit id gives the id back |
| OrToolsFacts.DecodeAssignment | src/AssemblyChain.Planning/Solver/Backends/OrToolsBackend.cs:490-500 | the decoded assignment of a mask is the ids at its set bits |
| OrToolsFacts.DecodeHas | src/AssemblyChain.Planning/Solver/Backends/OrToolsBackend.cs:490-500 | the id at each set bit is selected |
| OrToolsFacts.DecodedFrom | src/AssemblyChain.Planning/Solver/Backends/OrToolsBackend.cs:490-500 | every selected id is at a set bit |
| OrToolsFacts.Pow2Add | src/AssemblyChain.Planning/Solver/Backends/OrToolsBackend.cs:462 | powers of two multiply by adding exponents |
| OrToolsFacts.MaskCountWraps | src/AssemblyChain.Planning/Solver/Backends/OrToolsBackend.cs:462 | 1 << n is a 32-bit shift: 30 parts give 2^30 masks, 31 give none, 32 give one |
| OrToolsFacts.NoClausesSelectsAll | src/AssemblyChain.Planning/Solver/Backends/OrToolsBackend.cs:454-457 | without clauses every part is selected |
| OrToolsFacts.BooleanAssignmentCorrect | src/AssemblyChain.Planning/Solver/Backends/OrToolsBackend.cs:448-503 | with distinct ids: unsatisfiable exactly when no mask satisfies the clauses; otherwise the decoded first largest satisfying assignment |
| OrToolsFacts.DuplicateEncodedIds | src/AssemblyChain.Planning/Solver/Backends/OrToolsBackend.cs:459 | repeated ids make ToDictionary throw an ArgumentException |
| OrToolsFacts.PlanStepsCorrect | src/AssemblyChain.Planning/Solver/Backends/OrToolsBackend.cs:148-191 | planning succeeds exactly when every planned part is in the assembly with a feasible motion, and the steps then fit the planned parts in order |
| OrToolsFacts.PlannedPartsFacts | src/AssemblyChain.Planning/Solver/Backends/OrToolsBackend.cs:159-165 | without a selection every part of the order is planned; with one exactly the selected parts of the order |
| OrToolsFacts.MotionGroupsFacts | src/AssemblyChain.Planning/Solver/Backends/OrToolsBackend.cs:224-239 | at most one group per key, one per key without a selection, and with one only selected parts |
| OrToolsFacts.FinishShape | src/AssemblyChain.Planning/Solver/Backends/OrToolsBackend.cs:74-86 | a feasible result with one step per planned part in order, and earlier metadata kept |
| OrToolsFacts.SolveNull | src/AssemblyChain.Planning/Solver/Backends/OrToolsBackend.cs:26-29 | a null request throws ArgumentNullException; any other request gets a result |
| OrToolsFacts.FailureShape | src/AssemblyChain.Planning/Solver/Backends/OrToolsBackend.cs:48-61 | Conflict and Infeasible carry the message; any other failure is Error with the exception's type and message recorded |
| OrToolsFacts.DispatchPath | src/AssemblyChain.Planning/Solver/Backends/OrToolsBackend.cs:41-46 | "MILP" and "SAT" in any mix of ASCII upper and lower case select their path, everything else CSP |
| OrToolsFacts.CspShape | src/AssemblyChain.Planning/Solver/Backends/OrToolsBackend.cs:66-87 | the CSP path keeps the metadata and sets mode "CSP" |
| OrToolsFacts.FinishStaged | src/AssemblyChain.Planning/Solver/Backends/OrToolsBackend.cs:74-86 | finishing keeps the metadata and the mode |
| OrToolsFacts.MilpShape | src/AssemblyChain.Planning/Solver/Backends/OrToolsBackend.cs:89-111 | the MILP path keeps the metadata and sets mode "MILP" |
| OrToolsFacts.SatShape | src/AssemblyChain.Planning/Solver/Backends/OrToolsBackend.cs:113-146 | the SAT path keeps the metadata and sets mode "SAT" |
| OrToolsFacts.SolveShape | src/AssemblyChain.Planning/Solver/Backends/OrToolsBackend.cs:24-63 | every answer is well shaped, keeps the base metadata and records its mode |
| OrToolsFacts.AnswerShape | src/AssemblyChain.Planning/Solver/Backends/OrToolsBackend.cs:39-61 | a staged result becomes a well shaped answer |
| OrToolsFacts.CspOrder | src/AssemblyChain.Planning/Solver/Backends/OrToolsBackend.cs:66-87 | a CSP plan steps through the smallest topological order |
| OrToolsFacts.SolveCspOrder | src/AssemblyChain.Planning/Solver/Backends/OrToolsBackend.cs:24-87 | a feasible CSP answer steps through the smallest topological order |
| OrToolsFacts.CspCycle | src/AssemblyChain.Planning/Solver/Backends/OrToolsBackend.cs:48-51 | a cyclic graph answers Conflict with the cycle message |
| OrToolsFacts.MilpCycle | src/AssemblyChain.Planning/Solver/Backends/OrToolsBackend.cs:355-373 | on the MILP path a cyclic graph answers Conflict with the cycle message too, whatever weighted order is given |
| OrToolsFacts.SatSelection | src/AssemblyChain.Planning/Solver/Backends/OrToolsBackend.cs:113-146 | a SAT plan has a non-empty selection, plans only selected parts and records them sorted |
| Common.Wrap32 | src/AssemblyChain.Planning/Solver/Backends/OrToolsBackend.cs:459 | C#'s unchecked 32-bit arithmetic: the result is an Int32, the value itself when it already is one, and congruent to it modulo 2^32 |
| Common.ParseInt32 | src/AssemblyChain.Planning/Solver/Backends/OrToolsBackend.cs:314 | int.TryParse with NumberStyles.Integer succeeds only with an Int32 value |
| Common.IntToStringParses | src/AssemblyChain.Planning/Solver/Backends/OrToolsBackend.cs:314 | int.TryParse reads back every Int32 that ToString prints |
| Common.IntParse | src/AssemblyChain.Core/Model/MotionModel.cs:80 | int.Parse succeeds exactly when int.TryParse does, with the same value; otherwise OverflowException for integer syntax and FormatException for anything else |
| Common.TrimEmptyIff | src/AssemblyChain.Planning/Solver/Backends/OrToolsBackend.cs:305-310 | Trim leaves nothing exactly when string.IsNullOrWhiteSpace holds |
| Common.SplitStringRemoveEmpty | src/AssemblyChain.Planning/Solver/Backends/OrToolsBackend.cs:335 | Split with RemoveEmptyEntries returns no empty piece |
| Common.SplitCharsRemoveEmpty | src/AssemblyChain.Planning/Solver/Backends/OrToolsBackend.cs:408 | Split on ',' and ' ' with RemoveEmptyEntries returns non-empty pieces free of the separators |
| Common.SplitRemoveEmptyJoin | src/AssemblyChain.Core/Model/MotionModel.cs:80 | splitting non-empty separator-free pieces joined by the separator gives the pieces back |
| Common.UpperAscii | src/AssemblyChain.Planning/Solver/Backends/OrToolsBackend.cs:41 | ToUpperInvariant restricted to ASCII: a-z become A-Z, every other character is kept, and the length is kept |
| Common.LowerAscii | scripts/generate_src_report.py:288 | lower() restricted to ASCII: A-Z become a-z, every other character is kept, and the length is kept |
| Common.SplitLines | scripts/generate_src_report.py:99 | splitlines gives lines without line boundaries |
| Common.PySplitChar | repo_audit.py:142 | str.split on a character gives at least one piece, none holding the separator |
| Common.SplitJoin | repo_audit.py:142 | splitting separator-free pieces joined by the separator gives the pieces back |
| Common.PyStripEmptyIff | repo_audit.py:142 | strip() leaves nothing exactly when the text is all white space |
| Common.PyRStripBlankIff | repo_audit.py:203-204 | rstrip() keeps a line's blankness and leaves no trailing white space |

## Left out

- File, directory, CLI and report I/O of the audit scripts (`walk_files`, `collect_metrics`, `run_audit`, `main`, the directory trees, every `render_*`, JSON output) is not modelled; it is formatting and filesystem access.
- md5 digests are not modelled: a duplicate block is keyed by its joined text. For newline-free lines the join is injective, so no distinction is lost.
- Regular-expression semantics are not modelled: `METHOD_RE`, `METHOD_PATTERN` and the keyword patterns are oracles that supply match positions, groups and counts.
- The averages of `summarise_metrics` and `summarize_methods` are out (floating point); the integer figures are modelled.
- Issue message texts in `classify_issues` are out; an issue carries its type, priority and the figures its message quotes.
- OrToolsBackend.SolveMilp: the weighted order and the objective are parameters, because `ComputePartCosts`, the `TopologicalComparer` weights and the objective are floating-point work. The cycle verdict (which the weights do not change), the implication check and the forbidden-part check on that order are modelled (OrToolsBackend.ResolveWeightedOrder, OrToolsFacts.MilpCycle); that the order is the weight-then-id Kahn order is not.
- Motion feasibility (dot products against the motion cone) is a predicate over exact reals, not IEEE doubles.
- Motion.IsMotionFeasible, Motion.IsGroupMotionFeasible, Constraints.CanPartMove, Constraints.CanGroupMove: the optional `tolerance` argument is fixed at its default 1e-9; calls with another tolerance are not modelled.
- Common.LowerAscii, Common.UpperAscii: only the ASCII letters change case; every other character is kept. `ToUpperInvariant`, `ToLowerInvariant`, `StringComparison.OrdinalIgnoreCase` and Python's `lower()` also map non-ASCII letters, and `lower()` can lengthen a string ('İ' becomes two characters). So Common.EqualsIgnoreCase and Common.StartsWithIgnoreCase compare ASCII case only.
- SrcReport.Fingerprint, OrToolsFacts.DispatchPath, OrToolsFacts.ClassifyForbid: these rest on the ASCII-only case mapping above; a fingerprint of a body with non-ASCII letters, and a mode or "forbid" spelled with non-ASCII letters that fold to ASCII, are not modelled as the source handles them.
- DomainModel.FromPoints: coordinates are exact reals, so a NaN coordinate, which passes `Math.Min` and `Math.Max` unordered, is not modelled.
- DomainModel.PartLookup, DomainModel.PartLookupOkIff: the geometry array's identity is an abstract allocation number chosen by the caller of DomainModel.NewPart; a list that is already an `ImmutableArray`, which `ToImmutableArray` hands back unchanged, is modelled by passing the same number.
- The `timestamp` entry of the solver metadata reads the clock and is left out.
- A `HashSet` or `Dictionary` that is only added to and whose enumeration order reaches a result is modelled as a list in insertion order, its .NET enumeration order (for instance the members of a `StronglyConnectedComponent`, PlanningGraph.NewComponent). The exceptions follow, one per line.
- MotionEvaluation.ComputePartMotionRays, MotionEvaluation.ComputeGroupMotionRays: the neighbour-map keys are visited in ascending order, standing in for the insertion order of `ContactModel`'s dictionary (the order of first appearance in the contact list).
- ConstraintGraphs.AllParts: the part-ray keys follow the graph's nodes in ascending order, standing in for the insertion order of the motion evaluator's dictionary.
- ContactModels.NeighbourMapOf: the neighbour map is a `map` of `set`s, so neither its key order nor the order of a part's neighbours is captured; the model reads it only by membership, except as stated for MotionEvaluation.
- Graphs.BuildDirectedGraph: the adjacency is a `map` of `set`s, so the dictionary's key order is not captured; its successor sets are `ImmutableHashSet`s, which have no insertion order to keep.
- The tree search's path feasibility and stability analysis are oracle parameters (geometry).
- TreeSearch.Solve, TreeSearch.SolvePlan: a grounded id that is not a part makes the source throw `KeyNotFoundException`; the model does not cover that case.
- DomainEntities.Assembly.CheckValid, DomainEntities.IsValidIff: sub-assemblies are finite value trees, so a real reference cycle (an assembly reachable from itself) cannot be built. On such a cycle `IsValid` first calls `GetAllParts`, whose recursion never ends, so the cycle walk it is meant to reach is never run; the model does not show this.
- Sub-assemblies of `Assembly` are value trees, so aliasing between assemblies (one sub-assembly object shared by two parents, or changed after insertion) is not captured.
- Rhino geometry is out: mesh validity, areas (`CalculateLoopArea`), the closest-vertex search (`FindOrCreateVertexIndex`), normals and the bounding box are parameters or fields of the mesh record.
- `Mesh.Normals.ComputeNormals` and `Mesh.Compact` after hole filling and duplicate removal are Rhino calls the model leaves out: the faces stay as added or kept, and vertex renumbering by `Compact` is not tracked.
- The `F1` and `F6` number formatting in the mesh messages are function parameters.
- The hole-area and percentage arithmetic uses exact reals instead of doubles.
- MeshValidation.ValidateMeshForContactDetection: `meshName` is accepted and never used, as in the source.
- MeshValidation.CheckTopology, MeshValidation.CheckDegenerateFaces, MeshValidation.CheckNormals, MeshValidation.CheckBoundingBox: the catch blocks are not modelled. No check therefore adds the "… check failed: {message}" warning, or clears HasValidNormals or HasValidBoundingBox because a Rhino call threw, and IsDegenerateFace never takes its catch branch that calls a face degenerate.
- MeshRepair.FillMeshHoles: exceptions from Rhino are not modelled. A loop of three or more indices therefore always fills, and the "Failed to fill hole" warning, which needs such an exception, is never given.
- Common.ParseInt32: .NET accepts trailing NUL characters after the number; the model does not.
- MotionEvaluation.GroupRaysDistinct, GroupRaysCount and GroupRaysParse require neighbour-map keys in [0, Int32.MaxValue]. Negative keys print with a '-', which the group-key separator also uses, so the key round trip does not hold for them.
- OrToolsBackend.SolveBooleanAssignment, SolveSat and Solve require 32-bit part ids (`Int32Parts`), as C#'s `int` makes them.
- Exceptions are values: each stage returns a `Result` whose error is the exception the source throws, and `Solve` maps them as its catch blocks do.
- Concurrency, caches, timers, UI components, serialisers, floating-point analysis, the Rhino geometry wrappers and the placeholder solvers are outside the modelled core.

## Findings

| source | as written | input that shows it | evidently intended | confidence | as-written member | corrected member |
|---|---|---|---|---|---|---|
| src/AssemblyChain.Core/Domain/Entities/Joint.cs:131 | the guard `min >= max` is false when a bound is NaN, so the limits are built and `HasLimits` is false | `new JointLimits(double.NaN, 0.0)` | reject every pair that is not strictly ordered (`!(min < max)`) | medium, not executed | DomainEntities.NaNBoundHasNoLimits | DomainEntities.NewJointLimitsChecked |
| src/AssemblyChain.Core/Model/ContactModel.cs:18 | `UniquePairs` is the number of neighbour-map keys, the parts that have a contact | one contact between P3 and P4: UniquePairs is 2 | the number of distinct unordered part pairs in contact, here 1 | medium, not executed | ContactModels.UniquePairsCountsParts | ContactModels.PairsOfIff |
| scripts/generate_src_report.py:177-178 | the body is searched from `match.end()`, after the `{` that the method pattern consumes, so the extractor looks for a later `{` | `public void F(){x}` gives an empty body | search from the method's own `{` | medium, not executed | SrcReport.AsWrittenLosesBody | SrcReport.OwnBlockBody |
| repo_audit.py:151 | `end_line` adds the newlines of `block`, which starts at `match.end()`, to the line of `match.start()`, missing the newlines inside the match | a header whose match ends after "\n{" followed by "\n}": the brace is on line 3, the end line is 2 | count the newlines from the match start | medium, not executed | RepoAudit.AsWrittenEndLineIsEarly | RepoAudit.EndLineFacts |

## Notes

- `FinalValidation` is documented as more lenient than the contact-detection check, but its tolerance (1e-3) is larger than the 1e-6 used for contact detection, and a larger tolerance rejects more meshes. MeshValidation.LargerToleranceRejectsMore and FinalToleranceIsStricter state this; the model follows the code.
- `TryParsePartIndex` accepts "P3", but `GetContactsForPart(3)` searches for "P0003" only (ContactModels.ShortNameNotFormatted, ForPartMissesShortNames). This is kept as the code does it.
- The `Part` constructor's mass guard is `mass <= 0`, which is false for NaN, so a part with mass NaN is built (DomainModel.NaNMassAccepted); the model follows the code.
- `build_dependency_graph` in `repo_audit.py` keeps a namespace's edge to itself; the model follows the code.
- `1 << partIndices.Length` is a 32-bit shift. With 31 parts the search bound is negative and no mask is tried; with 32 it is 1 (OrToolsFacts.MaskCountWraps).
