# simsh: a verified model of its deterministic core

simsh is a shell kernel that runs scripts against a virtual file system. This project models its
self-contained parts in Dafny and proves what they are for, over all inputs and all runs:

* **the script language**: a byte tokenizer with quoting and deferred heredoc bodies, a
  recursive-descent parser with two cursors, and a runner with pipelines and redirections
  (`ScriptIr`, `ScriptLexer`, `ScriptParser`, `ScriptSpelling`, `ScriptLexemes`, `ScriptGrammar`,
  `ScriptPrinter`, `ScriptPrintLex`, `ScriptRoundTrip`, `ScriptImage`, `ScriptRunner`, `ScriptExecutor`,
  `ScriptRuns`, `RedirectionSafety`, `OutputLimit`);
* **algorithms with exact specifications**: the LCS table and the diff read off it (`LineDiff`), the
  memoised `**` matcher (`GlobMatch`), the queue of `ls -R` and the recursion of `tree` (`DirWalk`,
  `TreeWalk`, `TreeCovers`, `TreeLimit`, `WalkOrder`);
* **the virtual file system overlay**: mount routing (`MountRouter`, `MountScan`), synthetic parent directories
  (`SyntheticTree`, `SyntheticNames`), batched reads (`BatchRead`, `StaticBatch`), reordered mutation records
  (`MutationRecords`), the static mount's index and what it answers (`StaticMount`, `MountListing`);
* **lexical paths** and the working directory (`WhiteSpace`, `SpaceEncoding`, `LexicalPath`, `EnginePath`);
* **skill selection and its control-plane log** (`SkillSelection`, `SkillWinners`, `SkillOrder`, `SkillCatalog`,
  `ControlPlane`, `ControlPlaneRuns`).

`Prelude` and `Ordering` hold what they share: results, lists without repeats, the order of strings
and a stable sort. `dafny verify dfyconfig.toml` checks everything.

## How the model is built

Code that loops or updates state is a method, and an object whose methods update its fields is a class
with those fields. Each method is proved to compute a function of its inputs or of the old state, and
the lemmas are about that function. What such a function means is then said once more without it:
in literals, bytes, exit codes and positions, for all inputs, and where possible in both directions. All
lemmas switch Dafny's automatic induction off: each proof is the text of its body.

* A Go string is a sequence of bytes, written with one `char` per byte. `strings.TrimSpace` removes
  the white space of Unicode, each character in its UTF-8 encoding (`WhiteSpace`).
* Iterating over a Go map is a loop that takes an arbitrary element of the set of keys left; whatever
  is proved about the result holds for every order.
* Calls into code outside the model (commands, files, backends of mounts, `path.Match`, the error
  texts of the parser) are arbitrary functions. The runner's commands and file operations read and
  change an abstract world of any type, so that a command may do anything; every command that runs and
  every write, with the world it is performed in, is recorded in a log, and the safety results speak
  of that log.
* The engine uses two path normalisers. The builtins' resolves a stack of names; the engine's (and the
  static mount's) cleans first and adds the leading `/` afterwards, so that `..` becomes `/..`. They
  agree exactly on blank, rooted and certain relative inputs (`EnginePath.NormalisersAgreeIff`).

Where the code does not do what one would expect of it, the model follows the code:

* In scripts a newline acts as `;`, and a backslash escapes inside single quotes too. A heredoc body
  may exceed its cap by one byte, because the check runs before the line's newline is appended.
* Normalisation trims white space before it cleans, so it is idempotent exactly when no name that ends
  in white space is left at the end. The consequences are proved one by one, each with its exact
  condition: a directory called `"a "` is listed by the static mount but not found again, which makes
  the listing fail; a mount point with such a component is not reached by descending through synthetic
  directories; a component of nothing but white space makes its parent a synthetic directory without
  children; a batched read that is asked for such a path fails even if the path can be read alone;
  `cd` into `"a "` followed by a slash enters `"a"`.
* `tree -L` marks a directory as visited where it first meets it. If that is at the depth limit, the
  directory is not expanded, even when a shorter way leads to it.
* A control-plane event says that it becomes visible at the next projection build, but the generation it
  stores is one later for every earlier event. Only the first event of a log is visible at the very
  next build.
* A skill that is moved to another scope produces one event, which names the new scope only. If it was
  the winner of its old scope, the log does not tell that the old scope's winner changed; this is the
  only step whose event leaves a change of winner out.
* A static mount at `..` with a file `../x` is never built: the walk from the file's directory upwards
  looks for `/..` and stays at `/`.
* `isSyntheticDir` is false for the root, and true for an active mount point that parents another.

## Model

| member | source | states |
|---|---|---|
| ScriptLexer.SkipInlineSpaces | pkg/engine/script_parser_v2.go:244-254 | the index loop skips exactly the blanks, tabs and carriage returns at the front |
| ScriptLexer.ReadShellWord | pkg/engine/script_parser_v2.go:256-318 | the quoting loop reads the word, and stops where, the quoting automaton says; same errors |
| ScriptSpelling.SpelledWord | pkg/engine/script_parser_v2.go:256-318 | a word spelled by plain bytes, escaped bytes and quoted runs is read as the bytes that are meant, and the scanner stops right behind it |
| ScriptSpelling.WordIff | pkg/engine/script_parser_v2.go:256-318 | every text has such a spelling, closed, ending in a backslash, with an open quote, or none, and the scanner's result is exactly the one it tells |
| ScriptLexer.ReadHereDocBody | pkg/engine/script_parser_v2.go:320-348 | the line loop reads a heredoc body up to its delimiter; unterminated and oversized bodies are errors |
| ScriptLexemes.SpelledDoc | pkg/engine/script_parser_v2.go:320-348 | a body is its lines, each with or without a CR that is dropped, up to the first line that is the delimiter, which may be the last of the input |
| ScriptLexer.TokenizeScript | pkg/engine/script_parser_v2.go:21-109 | the index-based tokenizer produces the tokens and bodies of the tokenizer on the remaining text, pending heredocs included |
| ScriptLexemes.TokenizeIff | pkg/engine/script_parser_v2.go:21-109 | tokenizing succeeds exactly on texts spelled by words, operators, heredocs and newlines with any blanks between them, and yields their tokens and bodies |
| ScriptParser.ParseSimpleCommand | pkg/engine/script_parser_v2.go:192-242 | the two-cursor loop parses one command and leaves both cursors where the grammar does |
| ScriptParser.ParsePipelineExpr | pkg/engine/script_parser_v2.go:170-190 | the same for a pipeline |
| ScriptParser.ParseStatements | pkg/engine/script_parser_v2.go:111-168 | the same for a whole token list: separators, the statement cap, leftover bodies |
| ScriptParser.ParseScript | pkg/engine/script_parser_v2.go:13-19 | tokenizing and parsing with indices equals parsing on the text |
| ScriptGrammar.LaidOutParses | pkg/engine/script_parser_v2.go:111-242 | arguments and redirections in any order, pipelines, links, and statements any number of `;` apart parse to the tree they lay out |
| ScriptGrammar.ParseIff | pkg/engine/script_parser_v2.go:13-348 | for every text and tree: parsing yields the tree if and only if the text is spelled and laid out as that tree |
| ScriptPrintLex.QuotedWordScans | pkg/engine/script_parser_v2.go:256-318 | every word, whatever its bytes, can be quoted so that the scanner reads back exactly that word |
| ScriptPrintLex.LinesScan | pkg/engine/script_parser_v2.go:320-348 | a printed heredoc body is read back unchanged, lines that end in CR included |
| ScriptPrintLex.LineLexes | pkg/engine/script_parser_v2.go:21-109 | a printed line with its heredoc bodies tokenizes to its tokens, a separator and its bodies |
| ScriptRoundTrip.ScriptParses | pkg/engine/script_parser_v2.go:111-242 | the token list of a well-formed tree parses to that tree and consumes all tokens and bodies |
| ScriptRoundTrip.ParsePrinted | pkg/engine/script_parser_v2.go:13-348 | every well-formed tree survives printing and parsing |
| ScriptImage.TokenizedPairing | pkg/engine/script_parser_v2.go:21-109 | whenever tokenizing succeeds each `<<` stands before its word, and words and bodies correspond one to one, in order, each body valid for its delimiter |
| ScriptImage.ParsedIsWellFormed | pkg/engine/script_parser_v2.go:111-242 | every parsed script is well-formed: commands with arguments, bodies that avoid their delimiter, the statement cap |
| ScriptImage.ErrorIsPossible | pkg/engine/script_parser_v2.go:111-242 | the errors for a missing body, unconsumed bodies, an unexpected token and a `<<` without target never come out of parsing a text |
| ScriptImage.ImageOfParser | pkg/engine/script_parser_v2.go:13-348 | the well-formed trees are exactly those parsing can produce |
| ScriptImage.ParsePrintParse | pkg/engine/script_parser_v2.go:13-348 | printing a parsed script and parsing it again changes nothing |
| ScriptRunner.ParsedIsRunnable | pkg/engine/script_runner.go:84-110 | every command of a parsed script has an argument, so that taking the first one is safe |
| ScriptExecutor.ApplyInputRedirections | pkg/engine/script_runner.go:143-176 | the input loop yields the redirected input or the first failure |
| ScriptExecutor.PreflightOutputRedirections | pkg/engine/script_runner.go:178-223 | the preflight loop returns the first redirection that policy or file system refuses |
| ScriptExecutor.Runner.ApplyOutputRedirections | pkg/engine/script_runner.go:229-283 | the state after the writes, and the failure if any, are those of the write-by-write definition |
| ScriptExecutor.Runner.ExecutePipeline | pkg/engine/script_runner.go:84-141 | the pipeline loop changes world and log, and returns, as the stage-by-stage definition says |
| ScriptExecutor.Runner.ExecuteStatements | pkg/engine/script_runner.go:34-82 | the same for statements, `&&` and `||`, and the cap on executed statements |
| ScriptExecutor.Runner.Execute | pkg/engine/script_runner.go:20-32 | the same for a script text |
| ScriptRuns.StatementChain | pkg/engine/script_runner.go:43-71 | of a statement the first pipeline runs, one behind `&&` exactly if the latest one that ran exited with 0, one behind `||` exactly if it did not; world, log and result are those of running exactly these in order |
| ScriptRuns.ScriptRun | pkg/engine/script_runner.go:34-82 | every statement runs, whatever the earlier ones returned, and the last one's result counts; more than 64 run nothing |
| ScriptRuns.PipelineFlow | pkg/engine/script_runner.go:84-141 | the commands of a pipeline run in order, each on what the one before it passed on, until one stops, an output exceeds the limit and is cut, or all have run |
| ScriptRuns.StageLaw | pkg/engine/script_runner.go:84-141 | a command runs on its last input redirection or else the pipe; on success it passes on its output, or nothing if that was redirected; a failure's own output and code are the result; what is refused before it runs changes nothing |
| ScriptRuns.GatheredText | pkg/engine/script_runner.go:316-327 | standard errors are joined by one newline, blank ones dropped |
| ScriptRuns.RunScriptHistory | pkg/engine/script_runner.go:20-141 | the log of every run is its history: replaying its commands and writes, each in the world the one before it left, leads from the first world to the last |
| ScriptRuns.InputFailsFirst | pkg/engine/script_runner.go:143-176 | the first input redirection that cannot be provided fails the command, with code 2 or 1 and its message |
| ScriptRuns.RefusedIff | pkg/engine/script_runner.go:178-223 | a command is refused before it runs exactly if policy, path, append support or the write check stands against one of its output redirections |
| ScriptRuns.RefusedFirst | pkg/engine/script_runner.go:178-223 | the first refused redirection decides the message and the code: 127 for the policy and what is not supported, 2 for its path, 1 otherwise |
| ScriptRuns.RefusedWrite | pkg/engine/script_runner.go:178-187 | without write permission a command that redirects output stops with code 127 and nothing happens |
| ScriptRuns.OversizeIff | pkg/engine/script_runner.go:285-314 | an output is refused exactly if writing is limited, it has more bytes than a positive limit, and the last target is not the null device |
| ScriptRuns.AppliesIff | pkg/engine/script_runner.go:229-283 | redirecting the output succeeds exactly if each target resolves and each write succeeds |
| ScriptRuns.WriteSucceedsIff | pkg/engine/script_runner.go:259-280 | a write or append succeeds exactly if the file system's operation of that kind does; otherwise the message and the code say why |
| ScriptRuns.TooDeep | pkg/engine/script_runner.go:88-90 | a pipeline of more commands than a positive limit runs none of them and says so |
| ScriptRuns.DecimalIs | pkg/engine/script_runner.go:89 | a limit in a message is shown in decimal, without leading zeros |
| RedirectionSafety.StageSafe | pkg/engine/script_runner.go:84-141 | running one command keeps the log safe; if the pipeline goes on, the command exited with 0 and exactly the writes its redirections ask for were made, in order, each to the path its target denoted when it was made, with its payload |
| RedirectionSafety.RunScriptSafe | pkg/engine/script_runner.go:20-141 | over whole runs, for all commands and file systems: a write happens only right after a command that exited with 0, is the next one its redirections ask for (append or write, resolved target, payload), within the cap, and only if policy allows writing |
| RedirectionSafety.NoWriteWithoutPermission | pkg/engine/script_runner.go:178-223 | under a policy without write permission nothing is written and no command that carries an output redirection runs |
| RedirectionSafety.WritesWithinCap | pkg/engine/script_runner.go:285-314 | in write-limited mode with a positive cap every redirected payload is within the cap |
| RedirectionSafety.LastInputWins | pkg/engine/script_runner.go:143-176 | redirected input succeeds exactly when every input redirection can be provided; the last one wins over the others and over the pipe |
| RedirectionSafety.StopReportsFailure | pkg/engine/script_runner.go:84-141 | a pipeline that stops early has a non-zero exit code |
| RedirectionSafety.SuccessWithinLimit | pkg/engine/script_runner.go:84-141 | a pipeline that reports success stays within a positive output limit |
| OutputLimit.LongestValid | pkg/engine/orchestrator.go:720-732 | cutting byte by byte yields the longest prefix within the limit that is valid UTF-8 |
| OutputLimit.TruncateUtf8String | pkg/engine/orchestrator.go:720-732 | the loop computes it; text within the limit is returned as it is |
| OutputLimit.CutsBeforeACharacter | pkg/engine/orchestrator.go:720-732 | valid text is cut between two characters, and the next one would not have fitted |
| OutputLimit.LosesAtMostThreeBytes | pkg/engine/orchestrator.go:720-732 | at most three bytes below the limit are lost on valid text |
| OutputLimit.TruncatedOutput | pkg/engine/orchestrator.go:697-714 | both streams together stay within a positive limit, both are prefixes, valid text stays valid, and a cut output never reports success |
| OutputLimit.CutOutput | pkg/engine/orchestrator.go:697-714 | an output over a positive limit is cut: standard output is the longest valid prefix within the limit, standard error within what is left, and code 0 becomes 1; any other output stays |
| OutputLimit.ValidIffEncoded | pkg/engine/orchestrator.go:727-730 | the texts taken for valid are exactly the encodings of Unicode scalar values |
| OutputLimit.FlattenedText | pkg/engine/orchestrator.go:734-745 | the text whose size a pipeline's limit is compared with: both streams, and a newline if one has to separate them |
| OutputLimit.EnforcedLimit | pkg/engine/orchestrator.go:689-695 | the policy's limit holds of the result; an output within it is untouched |
| LineDiff.LcsTable | pkg/builtin/op_diff.go:81-99 | the nested loops fill the table with the recursive definition's values |
| LineDiff.CellIsUpperBound | pkg/builtin/op_diff.go:81-99 | no common subsequence of two prefixes is longer than their table entry |
| LineDiff.CellIsExact | pkg/builtin/op_diff.go:81-99 | each entry is the length of some common subsequence of the two prefixes, and of a longest one |
| LineDiff.ScriptIsPatch | pkg/builtin/op_diff.go:54-79 | the backtrack's edits spell the first file with kept and removed lines, the second with kept and added ones, and keep as many lines as the table says |
| LineDiff.DiffIsMinimalPatch | pkg/builtin/op_diff.go:54-79 | the diff is such a patch between the whole files, and no edit script between them has fewer `+` and `-` lines |
| LineDiff.DiffComesFirst | pkg/builtin/op_diff.go:61-74 | of all minimal patches it is the one that, read from the end, keeps a line wherever one can be kept and adds lines before it removes any |
| LineDiff.SimpleDiff | pkg/builtin/op_diff.go:54-79 | the output is the header and lines that, read back by their first bytes, are a patch between the two files with the fewest `+` and `-` lines, and of those the one that comes first |
| LineDiff.JoinedSplits | pkg/builtin/op_diff.go:78 | the lines can be read back from the joined text |
| DirWalk.RunLsRecursive | pkg/builtin/op_listing.go:279-312 | the queue loop ends on every table of listings, cycles included, with the sections of the queue walk |
| DirWalk.LsRecursiveCovers | pkg/builtin/op_listing.go:279-312 | `ls -R` expands exactly the directories reachable from the target, each once, and fails exactly when one of them cannot be listed |
| WalkOrder.LsRecursiveOrder | pkg/builtin/op_listing.go:279-312 | the sections come in the order in which directories are mentioned first: the target, then what its section lists, and so on |
| TreeWalk.Walker.AppendTreeEntries | pkg/builtin/op_tree.go:227-276 | the recursion on the shared visited set and entry list appends exactly what the functional walk returns, and leaves the same set behind |
| TreeCovers.TreeStaysNear | pkg/builtin/op_tree.go:213-276 | under any depth limit `tree` expands only directories within it, each once, prints every entry of each, and fails only at one it cannot list; a directory within the limit that it met and did not expand was met at the limit |
| TreeCovers.WalkCoversIff | pkg/builtin/op_tree.go:213-276 | for the listings in their given order: a walk that ends well expands exactly the directories within the limit if and only if it met none of them first at the limit |
| TreeCovers.TreeCoversNear | pkg/builtin/op_tree.go:213-276 | if no directory within the limit also ends a repetition-free path of exactly that many steps, `tree` expands exactly the directories within the limit and fails exactly when one of them cannot be listed |
| TreeCovers.UnlimitedTreeCovers | pkg/builtin/op_tree.go:213-276 | without a depth limit `tree` expands exactly the directories reachable through visible entries, each once, prints every entry of each, and fails exactly when one cannot be listed |
| TreeCovers.TreeMatchesLsRecursive | pkg/builtin/op_tree.go:213-276 | with hidden entries and no limit, `tree` and `ls -R` succeed together, expand the same directories and print the same entries equally often |
| WalkOrder.TreeOutline | pkg/builtin/op_tree.go:227-276 | the entries are an outline: the target's listing in order, and below each directory mentioned for the first time above the limit its own listing in order, one level deeper |
| TreeWalk.ShownIff | pkg/builtin/op_tree.go:251-258 | an entry is shown exactly if hidden entries are wanted or its name does not begin with a dot, the name being what follows the last slash but those at the end |
| TreeLimit.LimitedTreeIff | pkg/builtin/op_tree.go:227-276 | the directories within the limit are expanded for every order in which directories may be listed if and only if there is no such second path |
| TreeLimit.TreesHaveNoDetour | pkg/builtin/op_tree.go:227-276 | where every directory has one parent there never is |
| TreeLimit.LimitNeedsCare | pkg/builtin/op_tree.go:227-276 | an input on which a directory one step away is not expanded under a limit of two |
| TreeLimit.LimitedTreeDepth | pkg/builtin/op_tree.go:227-240 | with a depth limit no entry of the whole tree is deeper than the limit |
| GlobMatch.CompileGlobPattern | pkg/builtin/op_glob.go:195-217 | the loop yields the collapsed parts, or the empty pattern's or the first malformed part's error |
| GlobMatch.MatchFromIsMeaning | pkg/builtin/op_glob.go:226-277 | the case analysis decides whether the rest of the segments divides among the rest of the parts |
| GlobMatch.CollapseKeepsMeaning | pkg/builtin/op_glob.go:205-208 | collapsing runs of `**` keeps what the pattern matches |
| GlobMatch.Matcher.Visit | pkg/builtin/op_glob.go:232-274 | a visit answers as the case analysis does, keeps the memo right, and costs at most one call and two more for each position newly remembered |
| GlobMatch.Matcher.Match | pkg/builtin/op_glob.go:226-277 | the memoised matcher decides the pattern's meaning in at most 1 + 2(segments + 1)(parts + 1) visits |
| GlobMatch.MatchGlobPattern | pkg/builtin/op_glob.go:187-277 | from texts to verdict: one name other than `**` matches exactly if it matches the last segment, at any depth; several names match exactly if the segments divide among them; no name and a malformed name are errors, and which |
| GlobMatch.NamesOfText | pkg/builtin/op_glob.go:195-204 | proper names between slashes or backslashes are the names of the pattern |
| GlobMatch.TrimmedPattern | pkg/builtin/op_glob.go:196 | white space around a pattern is dropped |
| GlobMatch.SegmentsOfPath | pkg/builtin/op_glob.go:227-228 | the names of a file's path are its segments |
| LexicalPath.NormalizeAbsolutePath | pkg/builtin/op_environment.go:176-202 | the stack loop computes the text of the resolved components |
| LexicalPath.NormalizedComponents | pkg/builtin/op_environment.go:176-202 | the result is absolute and has no empty, `.` or `..` component |
| LexicalPath.ComponentsStep | pkg/builtin/op_environment.go:176-202 | part by part: an empty part and `.` change nothing, `..` takes the last name away, any other part is added |
| LexicalPath.TrimmedComponents | pkg/builtin/op_environment.go:177-180 | white space around a path is dropped and a blank path is the root |
| LexicalPath.ComponentsOfPart | pkg/builtin/op_environment.go:183-197 | a path of one part is that name, or the root for an empty part, `.` and `..` |
| LexicalPath.AbsoluteStep | pkg/builtin/op_environment.go:198-202 | the text is each name behind a slash |
| SpaceEncoding.SpaceAtFrontIff | pkg/builtin/op_environment.go:177 | what is dropped are the encodings of Unicode's white space |
| LexicalPath.IdempotentIff | pkg/builtin/op_environment.go:176-202 | normalising again changes nothing exactly when the normal form does not end in white space |
| EnginePath.IdempotentUnlessSpaceStays | pkg/builtin/op_environment.go:176-202 | on the input: unless some name ends in white space and what follows it leads back to it |
| LexicalPath.SpaceFreeIdempotent | pkg/builtin/op_environment.go:176-202 | hence idempotent on white-space-free input |
| LexicalPath.IdempotenceNeedsCare | pkg/builtin/op_environment.go:176-202 | an input on which a second normalisation changes the path |
| LexicalPath.NormalizeJoin | pkg/builtin/op_environment.go:176-202 | norm(norm(p)/q) = norm(p/q) for every q if p does not end in white space |
| LexicalPath.NormalizeJoinIff | pkg/builtin/op_environment.go:176-202 | it holds for every q if and only if trimming the end of p does not change where p leads |
| LexicalPath.JoinNeedsCare | pkg/builtin/op_environment.go:176-202 | an input on which it fails |
| LexicalPath.PrefixIsComponentPrefix | pkg/engine/virtualfs_router.go:72-80 | the textual test for `a/` in front of `b` is the component-wise one |
| EnginePath.NormalisersAgreeIff | pkg/engine/orchestrator.go:333-343 | the engine's normaliser and the builtins' agree exactly on blank and rooted inputs and on relative ones that never climb above their start and end below it |
| EnginePath.NeverNormal | pkg/engine/orchestrator.go:333-343 | on all other inputs the engine's result is no normal form at all |
| EnginePath.RelativeInputsDisagree | pkg/engine/orchestrator.go:333-343 | an input on which the two normalisers differ |
| EnginePath.RelativeText | pkg/engine/orchestrator.go:333-343 | a relative path that leads up k levels and down to some names from every directory deep enough becomes k times `..` and those names |
| EnginePath.NullDeviceIff | pkg/engine/orchestrator.go:408-410 | the null device is every rooted text whose names are dev and null |
| EnginePath.NormalizeShrinks | pkg/engine/orchestrator.go:333-343 | normalising a rooted path again shortens it unless it changes nothing |
| EnginePath.TargetIsProper | pkg/engine/path_resolution.go:58-68 | every argument that is not blank leads to an absolute path of proper names, and a blank one is an error |
| EnginePath.WorkingDir.ChangeWorkingDir | pkg/engine/path_resolution.go:74-92 | the working directory changes only on success, to the resolved directory; a blank argument means the root |
| EnginePath.TargetIsNormalIff | pkg/engine/path_resolution.go:58-68 | it leads to the normal form of the text it names if and only if it is absolute or that form does not end in white space |
| EnginePath.CdComposesIff | pkg/engine/path_resolution.go:58-92 | for which p that after `cd p` every q leads to where `p/q` led before, for a base resolver that keeps the directory: for a relative p if and only if the path it names does not end in white space; for an absolute p the same over the q for which `p/q` does not end in white space |
| EnginePath.CdComposes | pkg/engine/path_resolution.go:58-92 | if p names a path that does not end in white space: a relative p composes with every q, an absolute one exactly with those q for which `p/q` does not end in white space |
| EnginePath.AbsoluteCdNeedsCare | pkg/engine/path_resolution.go:58-92 | for every absolute p there is a q with which it does not compose |
| EnginePath.SpaceFreeCd | pkg/engine/path_resolution.go:58-92 | hence always for arguments without white space |
| EnginePath.CdNeedsCare | pkg/engine/path_resolution.go:58-92 | inputs on which it fails: `cd` to a name that ends in white space enters another directory |
| MountRouter.NewMountRouter | pkg/engine/virtualfs_router.go:45-66 | the loop and the stable sort build the router, or refuse the root and duplicate points |
| MountRouter.AcceptedIff | pkg/engine/virtualfs_router.go:45-66 | a list of mounts is accepted exactly when no point is the root and none occurs twice |
| MountRouter.Match | pkg/engine/virtualfs_router.go:72-80 | the loop returns the first mount in the router's order that owns the normalised path |
| MountRouter.OwnsIff | pkg/engine/virtualfs_router.go:72-80 | for proper names, a mount owns exactly its point and what lies below it, name by name |
| MountRouter.MatchIsUniqueLongest | pkg/engine/virtualfs_router.go:45-80 | for every accepted list that is the unique longest mount point owning the path, and nothing exactly when none does |
| MountRouter.MatchIgnoresRegistrationOrder | pkg/engine/virtualfs_router.go:45-80 | the order of registration matters neither for acceptance nor for where a path goes |
| MountScan.FindMountForTarget | pkg/builtin/op_mounts.go:257-280 | the scan loop keeps the best mount so far |
| MountScan.ScanIsFirstBest | pkg/builtin/op_mounts.go:257-280 | it returns the first of the longest mount points that own the target, and nothing exactly when none does |
| MountScan.ScanAgreesIff | pkg/builtin/op_mounts.go:257-280 | for a target on which the two normalisers agree, the unsorted scan finds the mount the router finds if and only if it finds nothing or a mount on whose point they agree |
| MountScan.NormalPointsAgreeIff | pkg/builtin/op_mounts.go:257-280 | if they agree on every mount point: if and only if they agree on the target or the scan finds nothing |
| MountScan.ScanNeedsCare | pkg/builtin/op_mounts.go:236-280 | an input on which scan and router differ |
| SyntheticTree.IsSyntheticDir | pkg/engine/virtualfs_router.go:111-126 | the loop over the active mounts computes the recursive definition; a failing existence check fails it |
| SyntheticTree.SyntheticChildren | pkg/engine/virtualfs_router.go:128-158 | the loop collects the sorted, duplicate-free children of the recursive definition |
| SyntheticTree.SyntheticDirIsPrefix | pkg/engine/virtualfs_router.go:22-43 | the structural check says yes wherever the existence-aware one does |
| SyntheticTree.IsSyntheticPrefix | pkg/engine/virtualfs_router.go:28-43 | the loop decides whether some other mount point lies below the path |
| SyntheticTree.ActiveStaysOrdered | pkg/engine/virtualfs_router.go:97-109 | leaving out absent mounts keeps the router's order |
| SyntheticTree.ActiveFailsIff | pkg/engine/virtualfs_router.go:97-109 | telling the active mounts fails exactly if some existence check fails, with the first error |
| SyntheticNames.PointHasComponents | pkg/engine/virtualfs_router.go:51-54 | every mount point the router accepts has components: any names, or those of a climbing text such as `/..` |
| SyntheticNames.ListedIff | pkg/engine/virtualfs_router.go:128-158 | for any mount points: one level down, a listing holds exactly the trimmed names of the next steps, and never a name that ends in white space |
| SyntheticNames.ListedAreSteps | pkg/engine/virtualfs_router.go:128-158 | for any mount points: a listing is sorted, and each of its entries is the normalised path of a next step toward an active mount point |
| SyntheticNames.ChildrenExactIff | pkg/engine/virtualfs_router.go:128-158 | the children are exactly the next steps toward the active mount points below if and only if those steps are proper names that do not end in white space |
| SyntheticNames.ListedLeadsIff | pkg/engine/virtualfs_router.go:128-158 | a path one level down is an active mount point or an ancestor of one if and only if some mount point goes on with that very name |
| SyntheticNames.DescentContinuesIff | pkg/engine/virtualfs_router.go:128-158 | a descent finds the next component of an active mount point exactly when it is a proper name that does not end in white space |
| SyntheticNames.DescentReachesIff | pkg/engine/virtualfs_router.go:128-158 | descending from the root reaches an active mount point if and only if all of its components are proper names that do not end in white space |
| SyntheticNames.SyntheticDirExact | pkg/engine/virtualfs_router.go:111-158 | a path other than the root is a synthetic directory exactly when an active mount point lies below, and has children exactly when one lies below behind a name that is not blank |
| SyntheticNames.SyntheticDirAgreesIff | pkg/engine/virtualfs_router.go:111-158 | being a synthetic directory and having synthetic children agree if and only if blank names are not all that leads below |
| SyntheticNames.BlankNameIsHidden | pkg/engine/virtualfs_router.go:111-158 | an input on which they do not |
| BatchRead.ReadOneIsRouted | pkg/engine/virtualfs_bridge.go:156-164 | one path is read from the active mount that owns it as the unique longest mount point, or else from the file system |
| BatchRead.ReadManyFromMount | pkg/contract/mount_dispatch.go:186-218 | budget and class checks, then the bulk call or the path-by-path loop |
| BatchRead.MountReadManyIs | pkg/contract/mount_dispatch.go:186-218 | a batch above a positive limit, of several paths without bulk reading or of one without reading is refused; otherwise the bulk reader answers, or a local mount path by path, and a remote one not at all |
| BatchRead.AppendReadManyEntries | pkg/engine/virtualfs_bridge.go:481-487 | the loop files the entries one by one, the per-path queues grow by exactly them, and stay truthful if the entries are |
| BatchRead.FiledInOrder | pkg/engine/virtualfs_bridge.go:481-487 | each queue gets the entries of its normalised path at its end, in their order |
| BatchRead.ReadMany | pkg/engine/virtualfs_bridge.go:166-225 | if each entry a bulk backend returns is its own answer to one of the paths it was sent, filed under that path or its normal form: on success one entry for each request, in request order, with the content reading that request alone gives, and a second normalisation leaves every request alone; with complete backends and admitting mounts it succeeds exactly when that holds and each request can be read alone |
| StaticBatch.StaticKeepsWord | pkg/mount/static_tree_mount.go:185-195 | the static mount's bulk reader returns only its own answers to the paths it was sent, each under its normal form |
| StaticBatch.StaticIsComplete | pkg/mount/static_tree_mount.go:185-195 | and answers every path, if they are stable and it can read each alone |
| StaticBatch.StaticMountsSuffice | pkg/engine/virtualfs_bridge.go:166-225 | where mounts that read in bulk are static mounts, nothing is left to assume of the backends of a batched read |
| MutationRecords.ReorderMutationRecords | pkg/engine/virtualfs_mutation_helpers.go:105-134 | with records: fails exactly when some kind and path is requested more often than recorded; otherwise a permutation whose first entries answer the operations one by one, equal keys in their order |
| MutationRecords.AnswersMatch | pkg/engine/virtualfs_mutation_helpers.go:105-134 | each operation is answered by a record of its kind and its path, once normalised |
| MutationRecords.AnswerIsUnique | pkg/engine/virtualfs_mutation_helpers.go:109-134 | with one record for each operation that result is unique, so the map's order cannot show |
| MutationRecords.InOrderStays | pkg/engine/virtualfs_mutation_helpers.go:109-134 | records already in order stay as they are |
| StaticMount.TextDecides | pkg/mount/static_tree_mount.go:28-32 | the textual prefix test on the normalised file name decides whether the name denotes a path strictly below the mount point |
| StaticMount.NormalizeTable | pkg/mount/static_tree_mount.go:27-34 | the loop refuses exactly the tables with a file whose normalised name fails the textual test, and otherwise stores every file under its normalised path with the text of a name that denotes it |
| StaticMount.TableIsUnique | pkg/mount/static_tree_mount.go:27-34 | that table is the only one if no two names denote one path |
| StaticMount.WalkEndsIff | pkg/mount/static_tree_mount.go:39-49 | for a file that passes the textual test, the walk from its directory upwards meets the mount point if and only if the point has a normal form: below `..` it never ends |
| StaticMount.CollectDirs | pkg/mount/static_tree_mount.go:41-51 | the loops find exactly the ancestors of files at or below the mount point |
| StaticMount.LinkAll | pkg/mount/static_tree_mount.go:53-74 | each path is linked to its parent's child set, and nothing else is |
| StaticMount.LinkedIsExact | pkg/mount/static_tree_mount.go:53-74 | the child sets are exactly the immediate children: files and directories one component longer |
| StaticMount.SortChildren | pkg/mount/static_tree_mount.go:76-84 | each child list is its child set, sorted, each path once |
| StaticMount.NewStaticMount | pkg/mount/static_tree_mount.go:22-93 | from raw texts, wherever that walk ends: accepts exactly the non-empty tables whose files pass the test below a mount point other than the root, and then the files lie strictly below it and the index has exactly the right directories and children; otherwise the error names the reason |
| StaticMount.IndexIsUnique | pkg/mount/static_tree_mount.go:39-92 | whatever the order of the maps, a table has one index |
| MountListing.AskedIsEngine | pkg/mount/mount_pathkit.go:8-18 | a requested text normalises to a path of proper names exactly when the model's request has those components |
| MountListing.ChildIsFoundIff | pkg/mount/static_tree_mount.go:108-118 | stat finds a listed child as itself exactly when its name does not end in white space |
| MountListing.ListingCanFail | pkg/mount/static_tree_mount.go:120-138 | a concrete index whose one-level listing fails on its own child |
| MountListing.FoundIff | pkg/mount/static_tree_mount.go:108-118 | stat finds one of the mount's own paths exactly when the path that its text asks for is in the index, and then answers with that path |
| MountListing.ListChildren | pkg/mount/static_tree_mount.go:126-137 | a one-level listing succeeds exactly when the path that each child's text asks for is in the index, and lists those paths with their kinds, in order; otherwise it fails at the first child that is not found |
| MountListing.ListBelow | pkg/mount/static_tree_mount.go:139-158 | a recursive listing succeeds exactly when the path that each directory below asks for is in the index, and holds those paths and the files below, in path order |
| MountListing.ListEntries | pkg/mount/static_tree_mount.go:120-159 | a listing succeeds exactly under those conditions; on an index without names ending in white space it never fails: one level gives exactly the children with their kinds, recursive exactly everything below, each node once |
| MountListing.RecursiveIsClosure | pkg/mount/static_tree_mount.go:120-159 | the prefix scan of the recursive listing is the transitive closure of one-level listings |
| MountListing.PathsOnceIff | pkg/mount/static_tree_mount.go:108-159 | a recursive listing names each path once, and agrees with stat on every kind, exactly when no file below is an ancestor of another |
| MountListing.EnumeratePaths | pkg/mount/static_tree_mount.go:161-173 | a file enumerates to itself, a directory only recursively, exactly when the recursive listing succeeds, and then to the files in it; without names ending in white space to exactly the files below, each once; otherwise the errors |
| MountListing.ReadMany | pkg/mount/static_tree_mount.go:185-195 | one entry for each request in order, or the error of the first request that fails |
| MountListing.ReadBack | pkg/mount/static_tree_mount.go:175-183 | a listed file's text is found exactly when the path it asks for is a file, gives that file's own content unless it ends in white space, and names the file exactly then |
| SkillSelection.CandidatesTotallyOrdered | pkg/adapter/reference/adapter_skills.go:93-130 | of two distinct names exactly one comes before the other, and no name before itself |
| SkillSelection.CandidatesTransitive | pkg/adapter/reference/adapter_skills.go:93-130 | the comparator is transitive |
| Ordering.StringLessIff | pkg/adapter/reference/adapter_skills.go:116 | names are ordered by the first byte in which they differ, a proper prefix first |
| SkillSelection.SelectWinner | pkg/adapter/reference/adapter_skills.go:84-91 | the first eligible name of a sorted scope is its least eligible candidate; none means nobody is eligible |
| SkillSelection.WinnerReason | pkg/adapter/reference/adapter_skills.go:132-147 | the winner reports a tie exactly when the runner-up has its tier and rank |
| SkillSelection.WinnerExistsIff | pkg/adapter/reference/adapter_skills.go:84-91 | a scope has a winner exactly when it has an eligible candidate |
| SkillSelection.DecidedOnce | pkg/adapter/reference/adapter_skills.go:9-82 | the order-free promise for a skill fixes its outcome |
| SkillSelection.OutcomeOf | pkg/adapter/reference/adapter_skills.go:9-82 | that promise can always be met |
| SkillSelection.DeriveOutcomes | pkg/adapter/reference/adapter_skills.go:9-82 | whatever the order of both maps, every skill gets exactly the promised outcome |
| SkillWinners.SelectedIff | pkg/adapter/reference/adapter_skills.go:9-82 | selected means eligible, and in a scope being its least eligible candidate |
| SkillOrder.SelectedIsFirst | pkg/adapter/reference/adapter_skills.go:38-130 | in a scope a skill is selected exactly if it is eligible and precedes every other eligible one: workspace before user before bundled, then the smaller rank, then the first name byte by byte |
| SkillOrder.SelectedHasBest | pkg/adapter/reference/adapter_skills.go:93-130 | so no eligible skill of the scope has a better tier, none of its tier a smaller rank, none of that rank an earlier name |
| SkillOrder.AloneOutcome | pkg/adapter/reference/adapter_skills.go:14-35 | without a scope a skill is selected exactly if its metadata says so and it is eligible, and the reason says what stood against it |
| SkillOrder.IneligibleOutcome | pkg/adapter/reference/adapter_skills.go:43-56 | in a scope a skill that is not eligible is told so |
| SkillOrder.LoserOutcome | pkg/adapter/reference/adapter_skills.go:69-78 | an eligible skill that is not selected is told the selected one's path, and a tie exactly if tier and rank are the same |
| SkillWinners.OneSelected | pkg/adapter/reference/adapter_skills.go:35-80 | a scope has exactly one selected skill if it has an eligible one, else none |
| SkillWinners.LosersNameWinner | pkg/adapter/reference/adapter_skills.go:68-80 | an eligible loser names the winner and the reason; it denies a winner exactly when the winner's name is empty |
| SkillWinners.TieIffShared | pkg/adapter/reference/adapter_skills.go:132-147 | with known tiers the winner reports a tie exactly when another eligible candidate shares its tier and rank |
| SkillWinners.UnrelatedUnchanged | pkg/adapter/reference/adapter_skills.go:9-82 | adding, changing or removing one skill leaves the outcome of every skill outside its old and new scope unchanged |
| SkillWinners.RemovingLoserKeepsWinner | pkg/adapter/reference/adapter_skills.go:9-82 | removing a skill that had not won changes no winner |
| SkillCatalog.SkillNameIsClean | pkg/adapter/reference/adapter_normalize.go:24-45 | every stored name is a clean relative path and never blank |
| SkillCatalog.SkillNameIs | pkg/adapter/reference/adapter_normalize.go:24-33 | a name whose last part has a dot is kept, any other one gets `/SKILL.md` |
| SkillCatalog.BlankSkillName | pkg/adapter/reference/adapter_normalize.go:24-45 | a blank name becomes `default/SKILL.md` |
| SkillCatalog.MetadataIs | pkg/adapter/reference/adapter_normalize.go:143-176 | known eligibility and tier texts are kept, others become unknown and bundled; ranks, the default rank and selection as given; known freshness or the default one |
| SkillCatalog.ScopeIs | pkg/adapter/reference/adapter_normalize.go:35-45 | a scope is kept as it is named, a blank one is none |
| SkillCatalog.WinnerPathIsBelowSkills | pkg/adapter/reference/adapter_skills.go:163-168 | the path shown for a skill is its name below `/skills` |
| SkillCatalog.NewSkillIsCanonical | pkg/adapter/reference/adapter_normalize.go:142-176 | normalised metadata has a known tier and state, a rank of at least 0, and is selected only if eligible |
| SkillCatalog.CanonicalLosers | pkg/adapter/reference/adapter_skills.go:149-168 | in a normalised map a loser always names the winner by its full path and never denies it |
| SkillCatalog.CanonicalTies | pkg/adapter/reference/adapter_skills.go:132-147 | and the winner's reason is a tie exactly when tier and rank are shared |
| ControlPlane.WinnerForScope | pkg/adapter/reference/adapter_skills.go:240-253 | the scan in map order finds the path of the scope's one winner, or nothing |
| ControlPlane.Adapter.constructor | pkg/adapter/reference/adapter.go:289-294 | a new adapter holds one skill for each normalised name of the bundle, with metadata given under that normalised name or none, an empty log and generation 0 |
| ControlPlane.Adapter.AppendEvent | pkg/adapter/reference/adapter_skills.go:188-206 | exactly one event is appended, numbered, dated, with selection and winners before and after and the two constant fields |
| ControlPlane.Adapter.UpsertSkill | pkg/adapter/reference/adapter.go:393-407 | the whole new state of an upsert |
| ControlPlane.Adapter.UpdateSkill | pkg/adapter/reference/adapter.go:374-391 | the whole new state of an update; an unknown name changes nothing |
| ControlPlane.Adapter.RemoveSkill | pkg/adapter/reference/adapter.go:409-423 | the whole new state of a removal; an unknown name changes nothing |
| ControlPlane.Adapter.BeginProjectionBuild | pkg/adapter/reference/adapter.go:510-520 | a build advances the generation by one and returns the log as it stands |
| ControlPlaneRuns.UpsertStores | pkg/adapter/reference/adapter.go:393-407 | an upsert stores the content with the normalised metadata and leaves every other skill as it is |
| ControlPlaneRuns.UpdateStores | pkg/adapter/reference/adapter.go:374-391 | an update stores the content and changes of the metadata only source and freshness |
| ControlPlaneRuns.RemoveTakesAway | pkg/adapter/reference/adapter.go:409-423 | a removal takes away that skill and no other |
| ControlPlaneRuns.EventSays | pkg/adapter/reference/adapter_skills.go:188-206 | the event tells what was done to which skill in which scope, and its selection before and after |
| ControlPlaneRuns.WinnerShownIs | pkg/adapter/reference/adapter_skills.go:240-253 | the winner it shows is the path of the scope's selected skill, or nothing if there is none |
| ControlPlane.ControlPlaneEventViews | pkg/adapter/reference/adapter_memory.go:202-229 | each event is shown in order, visible exactly from its stored generation on |
| ControlPlaneRuns.ReachableIsGood | pkg/adapter/reference/adapter.go:374-423 | in every reachable state sequence numbers are positions plus one, stored generations strictly increase, and names and metadata are normalised |
| ControlPlaneRuns.BundleIsCanonical | pkg/adapter/reference/adapter.go:289-294 | the initial bundle is a state those runs may start from |
| ControlPlaneRuns.VisibleIsPrefix | pkg/adapter/reference/adapter_memory.go:202-229 | at any generation the visible events are a prefix of the log |
| ControlPlaneRuns.LogOnlyGrows | pkg/adapter/reference/adapter.go:374-423 | the log is only appended to, and what a generation shows every later state shows at every later generation |
| ControlPlaneRuns.NewEventsArePending | pkg/adapter/reference/adapter_skills.go:188-206 | an event recorded during a run exceeds every generation built before that run |
| ControlPlaneRuns.FirstVisible | pkg/adapter/reference/adapter_skills.go:199 | an event recorded behind k others is first shown k + 1 builds later: at the very next build exactly when the log was empty |
| ControlPlaneRuns.BuildsShowEverything | pkg/adapter/reference/adapter_skills.go:199 | as many builds as there are events show the whole log |
| ControlPlaneRuns.OtherScopesKeepWinner | pkg/adapter/reference/adapter_skills.go:208-253 | a step changes the winner of no scope but its skill's old and new one |
| ControlPlaneRuns.StepTellsIff | pkg/adapter/reference/adapter_skills.go:188-253 | a step's event tells every change of a winner, for every scope, if and only if the step does not move a scope's winner to another scope |
| ControlPlaneRuns.RunTellsIff | pkg/adapter/reference/adapter_skills.go:188-253 | all along a run, what the log last reported for each scope is that scope's winner if and only if no step of the run moves a scope's winner to another scope |
| ControlPlaneRuns.LogTellsWinner | pkg/adapter/reference/adapter_skills.go:188-253 | at the end of such a run, from any state with an empty log |
| ControlPlaneRuns.MovesGoUnreported | pkg/adapter/reference/adapter_skills.go:208-253 | when a scope's winner is moved elsewhere, that scope's winner changes and the event does not name the scope |

## Left out

- ScriptExecutor.Runner.Execute: cancellation, deadlines, tracing, external commands and audit events; a command is an arbitrary function of the world.
- LineDiff.SimpleDiff: splitting files into lines and the flags of `diff`.
- DirWalk.RunLsRecursive: the rendering of a directory's section; a section is the directory and its entries.
- TreeWalk.Walker.AppendTreeEntries: the depth hint passed to the lister; a listing is a fixed table.
- GlobMatch.MatchGlobPattern: `path.Match` is an arbitrary total predicate; an error it might report only while matching is not modelled.
- EnginePath.CdComposesIff: a base resolver that maps the directory to another path.
- EnginePath.WorkingDir.ChangeWorkingDir: the base resolver and the directory test are arbitrary functions of the path, the same before and after.
- MountScan.ScanAgreesIff: targets and mount points of which neither has a normal form, both beginning with `..`.
- SyntheticNames.ListedIff: listings of a directory such as `/..` that has no normal form; mount points may be of that kind.
- BatchRead.ReadMany: a bulk backend that returns an entry which is not its own answer to a path it was sent; how much it returns, and in which order, is free, and static mounts need no assumption.
- MutationRecords.ReorderMutationRecords: the routing of mutations to mounts and the fallback that applies them one by one.
- StaticMount.NewStaticMount: the inputs on which the constructor does not return: a mount point without a normal form, such as `..`, all of whose files pass the textual test. Of two file names that denote one path Go's map order keeps either text.
- MountListing.EnumeratePaths: sizes, line counts and kinds shown with an entry, and content search.
- Documents, resources, workflows, curated entries and the projection's files.
- Host file systems, the command line, the terminal and HTTP front ends, sessions and manuals.
- Locks: each locked method is one atomic step.
