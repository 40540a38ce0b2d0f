# Vulnmap CLI: a Dafny model of its core algorithms

Seven algorithms of the Vulnmap CLI are modelled here and proved to do what the
program relies on them for.

| Part of the program | Modules | Main results |
|---|---|---|
| Manifest discovery (`src/lib/find-files.ts`, tables of `src/lib/detect.ts`) | `Paths`, `Manifests`, `ManifestFilter`, `FindFiles`, `Walk`, `BottomUp`, `Discovery`, `Detect` | The walk finds exactly the files that no name on the way hides, each once, and returns exactly those that stand for their directory and kind. Filtering at every directory on the way up equals filtering once, with the exact exception. The kept Gradle files are an antichain that covers all of them. With the program's own tables no default manifest is ever missing. |
| Gemfile.lock graph to tree (`gemfile-lock-to-dependencies.js`) | `GemGraph`, `GemReducer` | The traversal with a shared table and aliased, half-built nodes computes the plain recursive unfolding, and throws exactly when a root reaches a cycle. |
| Patch application (`packages/vulnmap-protect/src/lib`) | `Hunks`, `PatchText`, `Protect` | Exactly which hunks the cursor loop handles as a unified diff on every file, which it handles on the files they fit, and which refuse every other file; what every success keeps, line ends included; what a whole run does to every file; repeating a run is idle. |
| Legacy result (`src/lib/vulnmap-test/legacy.ts`) | `JsonText`, `LegacyVulns` | The printed join key is injective for arbitrary strings, so the join by text is the join by (issue, path), and each vulnerability has the last upgrade path the response offers for both; one vulnerability per slot, in order. |
| Command tree (`cliv2/cmd/cliv2/main.go`) | `Strings`, `CommandTree` | The nodes are exactly the prefixes of the workflow names, in any order of workflows; a built command prints as its workflow's name. |
| Text reflow (`src/cli/commands/help/reflow-text.ts`) | `Reflow`, `ReflowLayout`, `ReflowWidth` | The lines are the words in order, spaced and broken by a rule stated without columns or steps; the content of a section is kept exactly when the width is positive or there is nothing to show; lines are at most two over the width, reached exactly from width two on; they keep to the width exactly when no tight word is met. |
| Dep-graph polling (`src/lib/ecosystems/resolve-test-facts.ts`) | `Polling` | At most 95 requests and 1 810 000 ms of sleep against every stream of responses. |

The parts that work step by step are classes and methods with loops: `Reducer` and
its heap of `DepNode`s, `Command` objects with parent links, `Protector` with its
files, the caller's `NameList` that `find` extends, the reversal of an array in
place, the reflow, patch, conversion and polling loops. Each is proved equal to a
function of its inputs or old state, and the results are lemmas about those
functions. `Wrappers` holds the two result types.

## Where the code differs from its documentation

The model follows the code in each case.

- The comment above `reflowText` promises lines of at most `width`
  (`src/cli/commands/help/reflow-text.ts:36-37`). The overflow test leaves out the
  space it may add, so lines reach `width + 2`. `ReflowWidth.SectionsFitIff`
  gives the exact condition for the promise, for every text and every width,
  `ReflowWidth.SectionsBounded` the true bound for positive widths, and
  `ReflowWidth.BoundReachedIff` the widths at which some text reaches it: two and up.
- With a width of zero or less `reflowText` loses every word of every section and
  leaves only escape codes: `Reflow.NoRoom`. `Reflow.ContentKeptIff` says for each
  section when nothing is lost.
- `patchString` advances its cursor after a deletion too, never compares a deleted
  line with the file, and fails on an insertion after the last line of a file that does
  not end in a line break (`packages/vulnmap-protect/src/lib/patch.ts:77-104`). A unified
  diff must succeed exactly on the files the hunk fits. `Hunks.HandlesIffOnlyAdds`: the
  code does so on every file exactly for hunks without deletions and without a final
  insertion. The two halves apart: `Hunks.HandlesFittingIffSupported` says which hunks
  are right wherever they fit; every other hunk fails where its old side ends the file,
  whatever comes before (`Hunks.UnsupportedFails`). `Hunks.RefusesMisfitsIffNoDeletion`
  says that only hunks without deletions are refused wherever they do not fit, and
  `Hunks.DeletesUnshownLine` has the hunk `-a` delete the line `b`. A file that ends in a
  line break has an empty last line, and before it a final insertion is handled too
  (`Hunks.HandlesBeforeEmptyLine`). `Hunks.AcceptsExactly` gives, for hunks with at most
  a final deletion, the files the code accepts.
- `find` filters at every level, but a list of at most one file is returned unfiltered
  (`src/lib/find-files.ts:164-166`), so a lone file without a package manager can
  survive below a directory where one filter over everything would have dropped it.
  `Discovery.SameUnlessLoneFile` gives the exact condition, and
  `Detect.MixLockSlipsThrough` a tree with three `mix.lock` files.
- The documentation of `find` says that the search goes two levels deep by default; the
  default is four (`src/lib/find-files.ts:58,64`). The depth is a parameter here.
- `chooseBestManifest` means to fall back to `package.json` for node, but its debug
  line reads the path of the missing lock file first (`src/lib/find-files.ts:261-278`)
  and would throw. `Detect.AutoDetectableHaveDefaults` shows that this is never reached
  on different files whose names are searched for.

## Model

| member | source | states |
|---|---|---|
| `GemGraph.DepNamesMembers` | src/lib/plugins/rubygems/gemfile-lock-to-dependencies.js:31-32 | The dependency names of a spec are its keys other than `version`. |
| `GemGraph.DepNamesConcat` | src/lib/plugins/rubygems/gemfile-lock-to-dependencies.js:31-32 | The dependency names of some keys followed by others are those of the first and then those of the others: they stand in the order of the keys. |
| `GemGraph.DepNamesOne` | src/lib/plugins/rubygems/gemfile-lock-to-dependencies.js:31-32 | A key gives one name, itself, unless it is `version`, which gives none. |
| `GemGraph.KeptMembers` | src/lib/plugins/rubygems/gemfile-lock-to-dependencies.js:16-21 | A name becomes a key of the reduced object exactly when it is listed and present in `specs`; unknown ones are ignored. |
| `GemGraph.KeptDistinct` | src/lib/plugins/rubygems/gemfile-lock-to-dependencies.js:15-37 | A name listed twice is one key. |
| `GemGraph.KeptInOrder` | src/lib/plugins/rubygems/gemfile-lock-to-dependencies.js:15-37 | The keys of the reduced object stand in the order in which the known names first occur. |
| `GemGraph.NaiveAll` | src/lib/plugins/rubygems/gemfile-lock-to-dependencies.js:15-37 | The reducer with its table taken away, on every lockfile, cyclic ones included: it terminates, and a success has one tree per known name, in first-appearance order. |
| `GemGraph.UnfoldsUnique` | src/lib/plugins/rubygems/gemfile-lock-to-dependencies.js:26-33 | A name has at most one finite unfolding: the tree is determined by the lockfile. |
| `GemGraph.NaiveUnfolds` | src/lib/plugins/rubygems/gemfile-lock-to-dependencies.js:15-37 | A success is the finite unfolding of the name, whatever the ancestors. |
| `GemGraph.NaiveAllUnfolds` | src/lib/plugins/rubygems/gemfile-lock-to-dependencies.js:15-37 | The same for a list of names. |
| `GemGraph.UnfoldedIsAcyclic` | src/lib/plugins/rubygems/gemfile-lock-to-dependencies.js:5-37 | From a name with a finite unfolding no path through `specs` repeats a name. |
| `GemGraph.NaiveErrs` | src/lib/plugins/rubygems/gemfile-lock-to-dependencies.js:5-13 | The error's `meta` is a real cycle: its chain extends the ancestors and is a path that `dep` closes. |
| `GemGraph.NaiveAllErrs` | src/lib/plugins/rubygems/gemfile-lock-to-dependencies.js:5-13 | The same for a list of names; the chain starts at one of them. |
| `GemGraph.FailsIffCyclic` | src/lib/plugins/rubygems/gemfile-lock-to-dependencies.js:5-37 | The cycle error is raised exactly when some root reaches a cycle through names in `specs`; otherwise every root is unfolded. |
| `GemGraph.UnfoldingExists` | src/lib/plugins/rubygems/gemfile-lock-to-dependencies.js:5-37 | A known name has a finite unfolding exactly when it reaches no cycle. |
| `GemReducer.PutLinks` | src/lib/plugins/rubygems/gemfile-lock-to-dependencies.js:23-29 | Writing the node of a name already a key changes nothing, a new one is appended; the object still links every key to the table's node. |
| `GemReducer.FinishedUnfolds` | src/lib/plugins/rubygems/gemfile-lock-to-dependencies.js:22-25 | A name taken from the table after it is finished would have unfolded without a cycle error: checking ancestors before the table hides no cycle. |
| `GemReducer.ErrorStays` | src/lib/plugins/rubygems/gemfile-lock-to-dependencies.js:33-33 | The first error among the names is the error of the whole reduce. |
| `GemReducer.Reducer.ReduceAll` | src/lib/plugins/rubygems/gemfile-lock-to-dependencies.js:31-33 | A reduce over names, on objects and the shared table, returns or throws what the reducer without a table does; each spec is expanded at most once over the whole run, the table only grows, and the result links to the table's nodes. |
| `GemReducer.Reducer.Reduce` | src/lib/plugins/rubygems/gemfile-lock-to-dependencies.js:15-37 | One step of the reduce keeps that agreement with one more name. |
| `GemReducer.Reducer.Expand` | src/lib/plugins/rubygems/gemfile-lock-to-dependencies.js:25-34 | A name met for the first time ends as a finished node in the table, or with the plain reducer's error. |
| `GemReducer.Reducer.Descend` | src/lib/plugins/rubygems/gemfile-lock-to-dependencies.js:26-33 | The node is in the table while its dependencies are reduced, with its name as one more ancestor. |
| `GemReducer.Reducer.Register` | src/lib/plugins/rubygems/gemfile-lock-to-dependencies.js:26-30 | A fresh node enters the table unfinished; the names in progress are exactly the ancestors, all different. |
| `GemReducer.Reducer.Finish` | src/lib/plugins/rubygems/gemfile-lock-to-dependencies.js:31-33 | The node is finished only when its reduce succeeds; an error is passed on unchanged. |
| `GemReducer.Reducer.StoreDependencies` | src/lib/plugins/rubygems/gemfile-lock-to-dependencies.js:31-33 | Filling in the dependencies finishes this node and disturbs no other. |
| `GemReducer.Reducer.NodeIsTree` | src/lib/plugins/rubygems/gemfile-lock-to-dependencies.js:23-33 | The object graph below a finished node, aliases included, reads as its unfolding. |
| `GemReducer.Reducer.RootsAreTrees` | src/lib/plugins/rubygems/gemfile-lock-to-dependencies.js:43-48 | After the reduce over the roots each root's object reads as the root's unfolding. |
| `GemReducer.Sanitised` | src/lib/plugins/rubygems/gemfile-lock-to-dependencies.js:46-46 | The first longest run of characters other than `!`; none exactly for a name of `!` only, where the code throws. |
| `GemReducer.AllSanitised` | src/lib/plugins/rubygems/gemfile-lock-to-dependencies.js:46-46 | Every root name sanitised, in order; it fails exactly when one of them does. |
| `GemReducer.LockToDependencies` | src/lib/plugins/rubygems/gemfile-lock-to-dependencies.js:39-49 | On every lockfile: without dependencies the result is empty; it fails on a name exactly when one is all `!`; otherwise each root name is the first longest run of its dependency without `!`, it fails exactly when one of these roots reaches a cycle, with the plain reducer's error, and else returns the known roots as keys, in order of first occurrence, whose objects read as the plain unfoldings, with one object per spec. |
| `JsonText.ReadEscaped` | src/lib/vulnmap-test/legacy.ts:450-452 | A printed string literal reads back as the string (escaping as in section 7 of RFC 8259), lone surrogates included. |
| `JsonText.ParseStringified` | src/lib/vulnmap-test/legacy.ts:450-452 | Reading the printed array gives back the array of strings. |
| `JsonText.EscapeUnitIs` | src/lib/vulnmap-test/legacy.ts:450-452 | A unit prints as itself exactly when it is no control character, quote, backslash or surrogate; the others get the short escapes of section 7 of RFC 8259 or a `\u` escape. |
| `JsonText.EscapeIs` | src/lib/vulnmap-test/legacy.ts:450-452 | A surrogate pair prints as it is, every other unit by itself. |
| `JsonText.StringifyIs` | src/lib/vulnmap-test/legacy.ts:450-452 | An array prints as its escaped strings in quotes, with commas between them, in brackets. |
| `JsonText.ScanEscaped` | src/lib/vulnmap-test/legacy.ts:450-452 | A scan inside a literal stays inside over an escaped string: no escaped text closes the literal. |
| `JsonText.ScanStringified` | src/lib/vulnmap-test/legacy.ts:450-452 | A scan of a printed array ends outside every literal and meets nothing outside but brackets, commas and quotes. |
| `LegacyVulns.LegacyPath` | src/lib/vulnmap-test/legacy.ts:454-456 | One printed package id per package, in order. |
| `LegacyVulns.LegacyPathIs` | src/lib/vulnmap-test/legacy.ts:454-456 | The printed path is, package by package, the name, `@` and the version, with `*` exactly for a missing or empty version. |
| `LegacyVulns.NoSplit` | src/lib/vulnmap-test/legacy.ts:450-452 | A printed path is never some text, a bar and another printed path. |
| `LegacyVulns.KeyNotShorter` | src/lib/vulnmap-test/legacy.ts:450-452 | Of two equal keys the first has no shorter issue id than the second; applied both ways, the ids have one length. |
| `LegacyVulns.KeyInjective` | src/lib/vulnmap-test/legacy.ts:450-452 | Two keys are equal exactly when issue id and path are, for arbitrary strings. |
| `LegacyVulns.AnswersMore` | src/lib/vulnmap-test/legacy.ts:346-357 | Writing one more upgrade path under its key answers every (issue, path) as recording it last would. |
| `LegacyVulns.AddUpgradePaths` | src/lib/vulnmap-test/legacy.ts:345-359 | The loop over an issue's upgrade paths keeps the table equal to the records. |
| `LegacyVulns.CollectUpgradePaths` | src/lib/vulnmap-test/legacy.ts:341-362 | After the loops the table gives, for every issue and path, the upgrade path recorded last. |
| `LegacyVulns.LastUpgradeIsLast` | src/lib/vulnmap-test/legacy.ts:354-376 | The upgrade path found is the one no later record replaces. |
| `LegacyVulns.NoUpgradeRecorded` | src/lib/vulnmap-test/legacy.ts:376-376 | Without a record it is the empty list. |
| `LegacyVulns.LegacyUpgradePathIs` | src/lib/vulnmap-test/legacy.ts:458-470 | The legacy upgrade path has one entry per item not dropped, in order: `false` exactly for an item whose new version is missing or empty, and otherwise its name, `@` and new version. |
| `LegacyVulns.LastUpgradeIsOffered` | src/lib/vulnmap-test/legacy.ts:341-376 | Told from the response alone: every issue and path gets the last upgrade path, in iteration order, whose issue has this id and whose items, dropped ones included, are the packages of this path; without one it gets the empty list. |
| `LegacyVulns.AddPathVulns` | src/lib/vulnmap-test/legacy.ts:371-400 | One vulnerability per issue on one path, each with every field from its own package, path and issue; it fails only where fix information is missing. |
| `LegacyVulns.CollectVulns` | src/lib/vulnmap-test/legacy.ts:364-400 | The list is one vulnerability per (package, path to root, issue), in iteration order. |
| `LegacyVulns.CollectBinaryVulns` | src/lib/vulnmap-test/legacy.ts:402-427 | One vulnerability per issue of each binary package, in order, without upgrade. |
| `LegacyVulns.Convert` | src/lib/vulnmap-test/legacy.ts:333-448 | The conversion fails exactly when some listed issue has no fix information; otherwise the list is the path slots and then the binary slots, each with the data, fix fields and last upgrade path the response has for it, upgradable exactly when one of the first two entries is an upgrade, and `ok` holds exactly when there are none. |
| `LegacyVulns.SlotsCount` | src/lib/vulnmap-test/legacy.ts:366-400 | Their number is the sum over packages of paths times issues. |
| `LegacyVulns.SlotAt` | src/lib/vulnmap-test/legacy.ts:366-400 | Package i, path j and issue k have their vulnerability at the place iteration order gives, with the ids of the path's packages in reverse order. |
| `LegacyVulns.BinarySlotAt` | src/lib/vulnmap-test/legacy.ts:404-427 | Issue k of binary package i has its vulnerability at the place iteration order gives, with `Upstream` and the package's name, `@` and version, `undefined` for a missing one. |
| `Strings.JoinSplit` | cliv2/cmd/cliv2/main.go:264-264 | Splitting at a separator and joining gives back any string. |
| `Strings.SplitJoin` | cliv2/cmd/cliv2/main.go:152-152 | Joining separator-free parts and splitting gives back the parts. |
| `Strings.JoinInjective` | cliv2/cmd/cliv2/main.go:152-152 | Different lists of separator-free parts join to different strings. |
| `CommandTree.KeyInjective` | cliv2/cmd/cliv2/main.go:270-271 | Different non-empty paths have different map keys. |
| `CommandTree.RunsIffWorkflow` | cliv2/cmd/cliv2/main.go:276-292 | A node runs a workflow exactly when its path is a workflow name; otherwise it is the hidden fallback without flag parsing. |
| `CommandTree.LastWorkflowDecides` | cliv2/cmd/cliv2/main.go:290-292 | Of several workflows with one name, the last one's visibility counts. |
| `CommandTree.ReverseInPlace` | cliv2/cmd/cliv2/main.go:148-150 | The swap loop leaves the array reversed. |
| `CommandTree.CollectNames` | cliv2/cmd/cliv2/main.go:140-146 | Climbing collects the names from the command up to the child of the root. |
| `CommandTree.NameIsFirstWord` | cliv2/cmd/cliv2/main.go:140-145 | A command's name is what stands before the first blank of its usage line. |
| `CommandTree.GetFullCommandString` | cliv2/cmd/cliv2/main.go:139-154 | The printed name is the parts of the command's path joined by blanks; the root prints its own name. |
| `CommandTree.Hang` | cliv2/cmd/cliv2/main.go:272-281 | A new command joins the tree below its parent, and the tree's invariant is kept. |
| `CommandTree.StepDown` | cliv2/cmd/cliv2/main.go:269-282 | One level down: the command already at the path, or a new one there; map and tree agree. |
| `CommandTree.Descend` | cliv2/cmd/cliv2/main.go:266-283 | The inner loop ends at the command of the whole name, adds exactly the missing prefixes and changes no old node's place. |
| `CommandTree.Configure` | cliv2/cmd/cliv2/main.go:285-292 | The last command of the name, and only it, gets the workflow. |
| `CommandTree.AddWorkflow` | cliv2/cmd/cliv2/main.go:256-293 | One turn of the outer loop keeps: nodes are the prefixes of the names so far, settings are those of the workflows so far. |
| `CommandTree.CreateCommandsForWorkflows` | cliv2/cmd/cliv2/main.go:252-294 | For every list of workflows in any order, the nodes are exactly the non-empty prefixes of the names, each below its parent and listed there once, and each runs its workflow or the fallback. |
| `CommandTree.PrintsWorkflowName` | cliv2/cmd/cliv2/main.go:139-154 | The command built for a workflow runs it and prints as the workflow's name. |
| `Hunks.PatchLines` | packages/vulnmap-protect/src/lib/patch.ts:77-104 | The splice loop computes the run of the patch lines from the start cursor, errors included. |
| `Hunks.NextLineStands` | packages/vulnmap-protect/src/lib/patch.ts:48-52 | The line a patch line stands for is its body, with a carriage return added exactly when the line of the file it is for ends in one and the patch line does not. |
| `Hunks.MarkerAndBody` | packages/vulnmap-protect/src/lib/patch.ts:48-54 | A patch line is its first character, which tells its kind, and its body; an empty one has neither. |
| `Hunks.PlainRunIs` | packages/vulnmap-protect/src/lib/patch.ts:77-104 | Where the file has no carriage returns at line ends, every run, errors included, is the run that takes each patch line as it is. |
| `Hunks.ReturnsKept` | packages/vulnmap-protect/src/lib/patch.ts:77-104 | Where every line before the last ends in a carriage return and every insertion comes before a line that does, the same holds after every successful run. |
| `Hunks.ShowsIsUnchanged` | packages/vulnmap-protect/src/lib/patch.ts:48-52 | A context line passes the comparison exactly when the file has the line shown, up to the file's carriage return. |
| `Hunks.CursorReplaces` | packages/vulnmap-protect/src/lib/patch.ts:73-106 | With deletions at most in last place, the run succeeds exactly when the code accepts the lines at the hunk start, and then the old side has given way to the new and all else stays. |
| `Hunks.AcceptsExactly` | packages/vulnmap-protect/src/lib/patch.ts:77-103 | With deletions at most in last place, the code accepts exactly the files the hunk fits, except that a final deletion only needs some line to delete and a final insertion needs a line after it. |
| `Hunks.FitsIsAccepted` | packages/vulnmap-protect/src/lib/patch.ts:77-103 | A hunk that fits the file and does not end in an insertion is accepted. |
| `Hunks.UnsupportedFails` | packages/vulnmap-protect/src/lib/patch.ts:77-104 | Every hunk of another shape fails where its own old side, which it fits, ends the file, whatever lines come before. |
| `Hunks.FilesAreTexts` | packages/vulnmap-protect/src/lib/patch.ts:64-64 | The lists of lines that splitting a text can give are those with at least one line and no line break in any. |
| `Hunks.HandlesFittingIffSupported` | packages/vulnmap-protect/src/lib/patch.ts:77-104 | For a hunk split from a text: on all files split from a text that it fits, it succeeds and replaces its old side, exactly when it deletes at most in last place and does not end in an insertion. |
| `Hunks.RefusesMisfitsIffNoDeletion` | packages/vulnmap-protect/src/lib/patch.ts:81-103 | The code fails on every file split from a text that a hunk does not fit exactly when the hunk deletes nothing; for any other hunk such a file is built that is patched all the same. |
| `Hunks.DeletesUnshownLine` | packages/vulnmap-protect/src/lib/patch.ts:82-85 | The hunk `-a` deletes the line `b`. |
| `Hunks.HandlesIffOnlyAdds` | packages/vulnmap-protect/src/lib/patch.ts:77-104 | Unified-diff semantics on every file split from a text, success exactly where the hunk fits and then its old side replaced, hold exactly for hunks without deletions and without a final insertion. |
| `Hunks.HandlesBeforeEmptyLine` | packages/vulnmap-protect/src/lib/patch.ts:77-104 | Before the empty last line of a file that ends in a line break, a hunk with deletions at most in last place succeeds wherever it fits and replaces its old side, a final insertion included. |
| `Hunks.RunKeeps` | packages/vulnmap-protect/src/lib/patch.ts:73-106 | Whatever the patch lines, lines with no known marker included, a success changes the line count by insertions minus deletions, keeps the lines before the hunk start, and leaves below the final cursor a suffix of the input. |
| `Hunks.EraseNewSide` | packages/vulnmap-protect/src/lib/patch.ts:86-89 | Erasing the inserted positions of a new side without deletions gives back the lines. |
| `Hunks.InsertionsUndone` | packages/vulnmap-protect/src/lib/patch.ts:77-104 | After a successful run of context and insertions, erasing the inserted positions gives back the file. |
| `PatchText.FindHeader` | packages/vulnmap-protect/src/lib/patch.ts:60-62 | The first position of the file header at the start of a line, if there is one. |
| `PatchText.DigitRun` | packages/vulnmap-protect/src/lib/patch.ts:69-69 | The capture takes all leading digits and no more. |
| `PatchText.HunkStartIs` | packages/vulnmap-protect/src/lib/patch.ts:69-73 | A hunk start is read exactly from a line of `@@ -`, a number, a comma and some `@@` before any line terminator, and is that number. |
| `PatchText.DecimalOfDigits` | packages/vulnmap-protect/src/lib/patch.ts:73-73 | Every number printed in base ten is read back. |
| `PatchText.LeadingZero` | packages/vulnmap-protect/src/lib/patch.ts:73-73 | Leading zeros do not change the number read. |
| `PatchText.HunkLinesIs` | packages/vulnmap-protect/src/lib/patch.ts:75-75 | The patch lines are exactly those between the first three lines and the last two. |
| `PatchText.PatchFileReads` | packages/vulnmap-protect/src/lib/patch.ts:60-75 | A patch printed from a file name, a hunk start and patch lines, after text without a file header, is read as exactly these. |
| `PatchText.PatchString` | packages/vulnmap-protect/src/lib/patch.ts:56-107 | The method returns a text that prints those lines and can be split into them again, and the lines keep and replace what they should. |
| `PatchText.NoHeaderIsInvalid` | packages/vulnmap-protect/src/lib/patch.ts:60-68 | A patch without a header line is refused, because slicing at -1 leaves one character. |
| `PatchText.PatchedIsResult` | packages/vulnmap-protect/src/lib/patch.ts:56-107 | The lines patchString ends with, for every patch and file: refused without a readable hunk start and unchanged without patch lines; every success, whatever the patch lines, has as many lines as the file less deletions plus insertions, and the file's lines above the hunk start and below the final cursor; a hunk of context, insertions and at most a final deletion succeeds exactly on accepted lines inside the file and replaces the old side by the new. |
| `PatchText.PatchedPrints` | packages/vulnmap-protect/src/lib/patch.ts:64-106 | The text returned prints these lines, and splitting it gives them back unless there are none: no patch line brings a line break with it. |
| `PatchText.PlainFile` | packages/vulnmap-protect/src/lib/patch.ts:56-107 | A file without carriage returns is patched with every patch line taken as it is. |
| `PatchText.ReturnsPatched` | packages/vulnmap-protect/src/lib/patch.ts:48-107 | A file whose lines end in carriage returns, up to the last, still does after a success whose insertions come before such lines. |
| `Protect.Protector.ApplyPatchToFile` | packages/vulnmap-protect/src/lib/patch.ts:9-38 | It throws exactly when an unflagged target cannot be read or patched, and then changes no file; otherwise it writes the target and both flags, or, on a flagged target, nothing. |
| `Protect.CallIs` | packages/vulnmap-protect/src/lib/patch.ts:9-38 | A call does nothing when the target has a file with its name and `.vulnmap-protect.flag` or `.orig`; otherwise it throws and changes nothing, or writes the patched target, the empty flag beside it and the time stamp to the old-style flag in the base folder, and no other file. |
| `Protect.TargetFileNameIs` | packages/vulnmap-protect/src/lib/patch.ts:40-46 | The target is what follows `--- a/` on the first header line of the patch; without a header line it is the last character of the patch. |
| `Protect.FileSafe` | packages/vulnmap-protect/src/lib/patch.ts:4-7 | The vulnerability id in the flag name has every colon turned into a dash and nothing else changed. |
| `Protect.Protector.ApplyAll` | packages/vulnmap-protect/src/lib/index.ts:77-96 | The nested loops apply the calls in order up to the first that throws. |
| `Protect.OthersStay` | packages/vulnmap-protect/src/lib/index.ts:77-96 | A file that no call targets and that is no flag is untouched by the run. |
| `Protect.FlaggedStays` | packages/vulnmap-protect/src/lib/patch.ts:19-23 | A flagged target keeps its content over a whole run. |
| `Protect.FlaggedIsNotWritten` | packages/vulnmap-protect/src/lib/patch.ts:19-23 | No call of a run writes a target that was flagged before it. |
| `Protect.FirstPatchWins` | packages/vulnmap-protect/src/lib/patch.ts:9-38 | Over a whole run a target that is no flag ends as the first call's patch applied to the original, or as the original. |
| `Protect.OnlyFirstWrites` | packages/vulnmap-protect/src/lib/patch.ts:9-38 | Of two calls on one target the later never writes it: in any run each target is rewritten at most once. |
| `Protect.TargetsFlagged` | packages/vulnmap-protect/src/lib/patch.ts:19-28 | After a run without error every target is flagged. |
| `Protect.RepeatedRunIsIdle` | packages/vulnmap-protect/src/lib/patch.ts:9-38 | Repeating a successful run, at any later time, succeeds and changes no file. |
| `Reflow.WordsAreSplit` | src/cli/commands/help/reflow-text.ts:73-73 | The words are what the maximal runs of blanks cut a text into: no word has a blank, only the first and last may be empty, and with the runs put back between them they are the text. |
| `Reflow.WordsKeep` | src/cli/commands/help/reflow-text.ts:73-73 | Splitting loses only blanks. |
| `Reflow.SplitLongWord` | src/cli/commands/help/reflow-text.ts:88-113 | The branch and inner loop for a long word compute one line filled up, full lines, and the rest on the current line. |
| `Reflow.ReflowSection` | src/cli/commands/help/reflow-text.ts:46-131 | The loops over fragments and words compute the lines of the section. |
| `Reflow.ReflowText` | src/cli/commands/help/reflow-text.ts:38-134 | The lines of all sections, in order. |
| `ReflowLayout.SectionIsReflowed` | src/cli/commands/help/reflow-text.ts:46-131 | For every positive width the lines of a section are its words, escape codes and empty fragments in order, spaced: one blank before a word or part exactly when something visible stands before it on the line and no escape code directly so. No word within the width is cut, a longer one is cut where the line is full, and a line ends only there or where the whole next word does not fit. |
| `ReflowLayout.SectionsAreReflowed` | src/cli/commands/help/reflow-text.ts:38-134 | The lines of the whole text are those of its sections so laid out, one section after the other. |
| `ReflowLayout.WordLaid` | src/cli/commands/help/reflow-text.ts:75-125 | One turn of the loop over words adds the parts of that word, and nothing else, to the layout. |
| `Reflow.SectionKeeps` | src/cli/commands/help/reflow-text.ts:46-131 | For every width of at least one, the lines hold exactly the visible non-blank characters and escape codes of the section in order, but for escape codes of a last line with nothing visible. |
| `Reflow.NoRoom` | src/cli/commands/help/reflow-text.ts:88-113 | With a width of zero or less no line of any section shows a character: the section's escape codes, in order, are all that is left. |
| `Reflow.ContentKeptIff` | src/cli/commands/help/reflow-text.ts:46-131 | The content of a section is kept exactly when the width is positive or the section has no visible character but blanks. |
| `Reflow.KeepsIffPositive` | src/cli/commands/help/reflow-text.ts:46-131 | Content is kept for all sections exactly when the width is positive. |
| `Reflow.SectionsShow` | src/cli/commands/help/reflow-text.ts:38-134 | With a positive width the whole reflowed text shows exactly the visible non-blank characters of all sections, in order. |
| `Reflow.SectionsShowNothing` | src/cli/commands/help/reflow-text.ts:38-134 | With a width of zero or less the whole reflowed text shows nothing. |
| `ReflowWidth.AddWordBounded` | src/cli/commands/help/reflow-text.ts:75-125 | The column is the visible length of the current line and at most width + 1; written lines are at most width + 2. |
| `ReflowWidth.SectionBounded` | src/cli/commands/help/reflow-text.ts:36-131 | With a positive width no line of a section is longer than width + 2. |
| `ReflowWidth.BoundIsReached` | src/cli/commands/help/reflow-text.ts:81-99 | For every width of at least two, some text gets a line of width + 2. |
| `ReflowWidth.BoundReachedIff` | src/cli/commands/help/reflow-text.ts:52-131 | A section cut at its escape codes gets a line of width + 2 for some section exactly when the width is at least two; in one column no line passes two. |
| `ReflowWidth.FitsIffNoTightWord` | src/cli/commands/help/reflow-text.ts:36-131 | Lines of at most the width, the documented goal, result exactly when counting columns over the words meets none that gets a space and then just fills the line without it or is longer than a line. |
| `ReflowWidth.FitsWithoutRoom` | src/cli/commands/help/reflow-text.ts:36-131 | Width zero is always kept to, since nothing is shown; a negative width exactly when the section has no text but empty fragments, so that no line is written. |
| `ReflowWidth.SectionsBounded` | src/cli/commands/help/reflow-text.ts:36-134 | With a positive width no line of the whole text is longer than width + 2. |
| `ReflowWidth.SectionsFitIff` | src/cli/commands/help/reflow-text.ts:36-134 | The documented goal for the whole text and every width: no line is longer than the width exactly when every section meets the condition for its width. |
| `Polling.SleptClosedForm` | src/lib/ecosystems/resolve-test-facts.ts:79-91 | The time after n sleeps is 1000 n (n + 1) up to ten, and 110 000 + 20 000 (n - 10) after that. |
| `Polling.TimeLeft` | src/lib/ecosystems/resolve-test-facts.ts:79-91 | The guard holds exactly before the first 95 requests. |
| `Polling.PollDepGraphAttributes` | src/lib/ecosystems/resolve-test-facts.ts:68-97 | Against every response stream at most 95 requests and 1 810 000 ms of sleep; the first response not in progress decides if it is among them, otherwise retries are exhausted. |
| `Paths.RenderInjective` | src/lib/find-files.ts:178-179 | Different directories print differently, so grouping by printed directory is grouping by directory. |
| `Paths.RenderIs` | src/lib/find-files.ts:140-140 | A path prints every name with a slash before it; the root is a single slash. |
| `Paths.LeqIs` | src/lib/find-files.ts:178-178 | Strings are ordered by their first difference, a prefix before what it starts. |
| `Paths.AncestorFirst` | src/lib/find-files.ts:178-178 | The sort places a directory before everything below it. |
| `Paths.RelativeBelow` | src/lib/find-files.ts:246-250 | The relative path does not start with `../` exactly when the file lies below the directory. |
| `Paths.RelativeLeads` | src/lib/find-files.ts:248-248 | Followed from where it starts, the relative path leads to the file. |
| `Manifests.KindsMembers` | src/lib/find-files.ts:183-187 | A kind has a group exactly when some file of the directory has it. |
| `Manifests.KindsInOrder` | src/lib/find-files.ts:183-187 | The groups stand in the order of the first file of each. |
| `Manifests.FirstNamedIsFirst` | src/lib/find-files.ts:256-337 | The default chosen is the first file with one of the kind's preferred names; it is missing exactly when no file has one. |
| `Manifests.BlockSolo` | src/lib/find-files.ts:187-217 | One directory keeps at most one file per kind, and none without a kind. |
| `Manifests.SoloBlock` | src/lib/find-files.ts:187-217 | Choosing again among the chosen changes nothing. |
| `Manifests.FinalMembers` | src/lib/find-files.ts:181-218 | What is kept in a directory is a matched file of that directory with a kind. |
| `Manifests.SortedUnique` | src/lib/find-files.ts:178-179 | Two lists in directory order that agree in every directory are equal. |
| `Manifests.FilteredInParts` | src/lib/find-files.ts:87-112 | Filtering first a part that holds all files of its directories changes nothing in the end. |
| `Manifests.FilteredTwice` | src/lib/find-files.ts:161-220 | A filtered list is what filtering keeps of it. |
| `Manifests.LeastGradle` | src/lib/find-files.ts:234-254 | Above any directory with a Gradle file there is a topmost one. |
| `ManifestFilter.SortByDirIsStable` | src/lib/find-files.ts:178-178 | The sort orders the directories and leaves each directory's files in their order. |
| `ManifestFilter.FilterDirectory` | src/lib/find-files.ts:187-217 | The inner loop, pushing at most one file per kind, or throwing. |
| `ManifestFilter.FilterForDefaultManifests` | src/lib/find-files.ts:161-220 | Both loops and the shortcut for at most one file. |
| `ManifestFilter.SkipIsAbove` | src/lib/find-files.ts:234-254 | A Gradle file is skipped exactly when a directory strictly above has a Gradle file, though the code only looks at what it has pushed so far. |
| `ManifestFilter.KeepKindsIs` | src/lib/find-files.ts:187-217 | The inner loop appends the directory's files, one per kind, without Gradle below another; it throws exactly when a group has no default. |
| `ManifestFilter.KeepDirsIs` | src/lib/find-files.ts:181-218 | The outer loop after n directories has kept exactly what each of them keeps. |
| `ManifestFilter.LoopsFilter` | src/lib/find-files.ts:178-219 | The loops throw exactly when some directory has several files of a kind without a default; otherwise they keep, in directory order, exactly the files of the rule stated directory by directory. |
| `FindFiles.Find` | src/lib/find-files.ts:60-116 | The walk with its mutated ignore list returns what the walk with the list fixed beforehand does, and leaves the caller's list extended by the default folders it lacks, unless the path itself is blocked. |
| `FindFiles.FindEntries` | src/lib/find-files.ts:130-159 | The entries not ignored, put together in order; the shared list does not change during them. |
| `FindFiles.WithDefaultsIs` | src/lib/find-files.ts:50-79 | The ignore list keeps the caller's names in front and gains exactly `node_modules` and `.build`, neither of them twice. |
| `Walk.BlockedByName` | src/lib/find-files.ts:70-72 | The test on the printed path is a test on its last name. |
| `Walk.FindsExactlyVisible` | src/lib/find-files.ts:60-159 | A path is found exactly when a file is there, at most `levelsDeep` below, its name passes the filter, no name on the way is ignored and no path on the way is blocked. |
| `Walk.FindsExactlySeen` | src/lib/find-files.ts:50-159 | By names alone: a path is found exactly when a file is there, at most `levelsDeep` below, its name passes the filter, and no name on the way is in the caller's list, is `node_modules` or `.build`, or ends in `node_modules`. |
| `Walk.FindsEachOnce` | src/lib/find-files.ts:60-159 | No file is found twice. |
| `BottomUp.ReplaceOne` | src/lib/find-files.ts:87-112 | Replacing the files below one entry by what their own filter left changes neither the final result of any directory nor a failure. |
| `BottomUp.ReplaceAll` | src/lib/find-files.ts:87-112 | The same for all entries of a directory. |
| `BottomUp.FilterLevel` | src/lib/find-files.ts:161-220 | The filter at a directory leaves what one filter over everything below would, apart from a lone file. |
| `BottomUp.WalkLeaves` | src/lib/find-files.ts:60-116 | At every level of every tree, `find` reports all files found, and leaves what one filter over them would, apart from a lone file; it throws exactly when that filter would. |
| `Discovery.KeptExactly` | src/lib/find-files.ts:161-254 | A file is kept exactly when it is the one chosen for its directory and kind and, for Gradle, no directory above has a Gradle file. |
| `Discovery.OnePerGroup` | src/lib/find-files.ts:187-217 | At most one file per directory and kind is kept. |
| `Discovery.GradleAntichain` | src/lib/find-files.ts:178-254 | Of the kept Gradle files none lies in the directory subtree of another. |
| `Discovery.GradleCovered` | src/lib/find-files.ts:178-254 | Every matched Gradle file lies in the subtree of a kept one. |
| `Discovery.FindIsFiltered` | src/lib/find-files.ts:87-112 | Of the files `find` returns, those with a kind are the filtered list of everything found, and any other is returned alone. |
| `Discovery.FindReportsSeen` | src/lib/find-files.ts:50-116 | Whatever names the caller gives, `allFilesFound` is exactly the files so seen, each once, and `files` is among them. |
| `Discovery.StandsIff` | src/lib/find-files.ts:187-217 | The file that stands for its directory and kind is the only one there, or the first with a preferred name. |
| `Discovery.FindReturnsKept` | src/lib/find-files.ts:60-254 | Of the files with a kind, `find` returns exactly those reported that stand for their directory and kind and, for Gradle, have no Gradle file reported in a directory above. |
| `Discovery.FoundOnePerGroup` | src/lib/find-files.ts:60-116 | `find` returns at most one file per directory and kind. |
| `Discovery.FoundGradleAntichain` | src/lib/find-files.ts:60-116 | Of the Gradle files `find` returns none lies in the directory subtree of another. |
| `Discovery.FoundGradleCovered` | src/lib/find-files.ts:60-116 | Every Gradle file the walk finds lies in the subtree of one that `find` returns. |
| `Discovery.FilteredIsIdempotent` | src/lib/find-files.ts:161-220 | `filterForDefaultManifests` is idempotent as a function on lists. |
| `Discovery.BottomUpIsOnce` | src/lib/find-files.ts:87-112 | When every matched file has a package manager, `find` returns the same list, or the same failure, as one filter over everything found. |
| `Discovery.ResidueIsLeft` | src/lib/find-files.ts:164-166 | Where one filter keeps nothing, `find` returns as many files as counting lone files up the tree says: none or one. |
| `Discovery.KeepsNothingByNames` | src/lib/find-files.ts:181-218 | One filter succeeds and keeps nothing exactly when every file with a kind shares directory and kind with another and the kind prefers no name. |
| `Discovery.SameUnlessLoneFile` | src/lib/find-files.ts:112-166 | For all trees, filtering on the way up and filtering once differ exactly when several files are found, every one with a kind shares its directory and kind with another and the kind prefers no name, and counting lone files up the tree leaves one. |
| `Discovery.SmallTree` | src/lib/find-files.ts:164-166 | A tree with at most one matching file gives that file. |
| `Detect.RulesAreConsistent` | src/lib/detect.ts:70-103 | The two Gradle tests of the program, by table and by ending, agree on every name with a package manager. |
| `Detect.OnlyMixLockHasNoKind` | src/lib/detect.ts:40-103 | Of the names searched for only `mix.lock` has no package manager. |
| `Detect.KindByName` | src/lib/detect.ts:70-208 | A name has a package manager only if it is listed under it, or ends in `.gemspec`, `.jar` or `.war` for the managers of these. |
| `Detect.ListedNameHasKind` | src/lib/detect.ts:70-208 | Every name so listed, and every name so ending, has a package manager. |
| `Detect.AutoIsListed` | src/lib/detect.ts:40-103 | The names searched for are `mix.lock` and the listed ones but for `setup.py`, `CocoaPods.podfile.yaml` and `CocoaPods.podfile`. |
| `Detect.OneIsPreferred` | src/lib/find-files.ts:256-337 | Of two different names searched for with one kind that has a default, one is the default. |
| `Detect.KeptByName` | src/lib/find-files.ts:187-337 | With the program's tables: where a directory has another file of the kind, the one kept has a default name of the kind, never that of a kind without one, and never `pyproject.toml`. |
| `Detect.AutoDetectableHaveDefaults` | src/lib/find-files.ts:256-337 | `chooseBestManifest` never reads a missing default on different files with names searched for. |
| `Detect.FindSucceeds` | src/lib/find-files.ts:60-116 | With the program's own name list `find` succeeds on every tree. |
| `Detect.EndingInPath` | src/lib/find-files.ts:241-245 | An ending without a slash, like the two looked for, ends the printed path exactly when it ends the file's name. |
| `Detect.MixLockSlipsThrough` | src/lib/find-files.ts:164-166 | A tree with three `mix.lock` files on which filtering on the way up and filtering once differ. |

## Left out

- Files, processes and the network: the directory tree is a finite value, files to patch are a map from path to content, poll responses an arbitrary stream. Symbolic links, changes during a run, and files that exist but cannot be written are not modelled.
- `Promise.all` in `find`: the entries are walked one after the other. `readDirectory`'s order is the order of the entries given.
- Windows paths: paths are lists of names printed with `/`.
- The stable sort compares printed directories by Dafny's `char` order, which differs from JavaScript's UTF-16 order only between characters beyond and just below the surrogate range; nothing proved but `Paths.LeqIs` depends on more than its being a total order with prefixes first.
- File names that are keys of JavaScript's object prototype, such as `constructor`, in the table lookup: none is among the names searched for.
- Parsing of the lockfile text, and `specs` entries whose name is such a key or whose keys are integer-like and reordered: the model starts from the parsed map with ordered keys.
- The dep-graph library: `pkgPathsToRoot` is an arbitrary function to sequences of paths, and its paths are reversed as fresh lists.
- The summary, metadata and policy fields of the legacy result, which are copied or counted without a join.
- Cobra beyond names, parent links and lists of subcommands; flag sets, and reading a command name from a workflow identifier. The workflows are given as a list of names with visibility.
- Cutting the help text into sections and fragments by regular expressions, and joining the lines at the end: the model starts from the fragments of each section and returns lines of cells.
- Patches with several hunks: the code treats later `@@` lines like any line without a marker it knows; `PatchText.PatchString` models that, but the unified-diff results are for hunks of context, insertion and deletion lines.
- `path.join` and `path.resolve` are arbitrary functions, so nothing is said of which folder a target lies in. `parseInt` is exact here.
- The text of error messages, debug output and analytics.
- `pollingMonitorWithTokenUntilDone` and `pollingTestWithTokenUntilDone`: their attempt counter is incremented on a copy and passed on unchanged, so they have no bound to prove.
- Formatters, colours, option validation, SARIF output, URL configuration and authentication.
